/** Reserving space at the end of a buffer, and committing what was written there. */
module EvbufferReserve {
  import opened Basics
  import opened Chunks
  import opened Evbuffers

  const MAX_TO_COPY_IN_EXPAND: nat := 4096

  /** The chunk before which there is no space: last_with_data, or the chunk after it when that one is full. */
  ghost function FirstSpace(g: Abs): (i: nat)
  {
    if g.mark < |g.cells| && g.cells[g.mark].SpaceLen() == 0 then g.mark + 1 else g.mark
  }

  /** A new empty chunk of at least datlen bytes, in place of the spare chunks at the end: evbuffer_chain_insert_new */
  method InsertNew(m: Memory, b: Evbuffer, ghost g: Abs, datlen: nat)
    returns (result: Ptr, m': Memory, b': Evbuffer, ghost g': Abs)
    requires b.Valid(m, g)
    ensures result == NULL <==> datlen > CHAIN_MAX - CHAIN_SIZE
    ensures result == NULL ==> m' == m && b' == b && g' == g
    ensures b'.Valid(m', g') && Kept(m, g.cells, m', g'.cells) && g'.Contents() == g.Contents()
    ensures result != NULL ==>
      |g'.cells| > 0 && g'.cells[|g'.cells| - 1].at == result && g'.cells[|g'.cells| - 1].SpaceLen() >= datlen
    ensures result != NULL ==> g'.mark <= |g'.cells| - 1 <= g'.mark + 1 && g'.cells[|g'.cells| - 1].SpaceLen() > 0
    ensures result != NULL && |g.cells| == 0 ==> |g'.cells| == 1
    ensures result != NULL ==> g' == Inserted(g, g'.cells[|g'.cells| - 1]) && g'.cells[|g'.cells| - 1].off == 0
    ensures g.Packed() ==> g'.Packed()
  {
    hide Bytes, BytesTo, Seg, Sound, Kept, Spare, Addrs, Cell.Data;
    m', b', g' := m, b, g;
    KeptAll(m, g.cells, NULL);
    ghost var c;
    m', result, c := ChainNew(m, datlen);
    if result != NULL {
      KeptNew(m, g.cells, NULL, c, m'[result]);
      SpareData(c);
      ghost var m1 := m';
      var aborted;
      ValidIs(m, b, g);
      FilledPointed(m, b, g, result, m1[result]);
      aborted, m', b', g' := ChainInsert(m', b, g, result, c);
      KeptSteps(m, g.cells, m1, g.cells + [c], m', g'.cells);
    }
  }

  /** Realigning one chunk of a buffer: evbuffer_chain_align */
  method Realign(m: Memory, b: Evbuffer, ghost g: Abs, ghost k: nat, chain: Ptr)
    returns (m': Memory, b': Evbuffer, ghost g': Abs)
    requires b.Valid(m, g) && k < |g.cells| && chain == g.cells[k].at
    ensures b'.Valid(m', g') && Kept(m, g.cells, m', g'.cells) && g'.Contents() == g.Contents() && b' == b
    ensures g'.mark == g.mark && |g'.cells| == |g.cells|
    ensures (forall i :: 0 <= i < |g.cells| && i != k ==> g'.cells[i] == g.cells[i])
    ensures g'.cells[k].at == chain && g'.cells[k].off == g.cells[k].off
    ensures g'.cells[k].SpaceLen() == |g.cells[k].buffer| - g.cells[k].off
    ensures g'.cells[k].misalign == 0 && |g'.cells[k].buffer| == |g.cells[k].buffer|
  {
    hide Bytes, BytesTo, Seg, Kept, Spare, Addrs, Cell.Data, WriteAt;
    ChunkAt(m, g.cells, k);
    m', b' := m[chain := Aligned(m[chain])], b;
    ghost var c := CellOf(chain, m'[chain]);
    AlignedCell(g.cells[k], m[chain]);
    g' := g.(cells := g.cells[k := c]);
    Rewritten(m, b, g.cells, k, c, m', b');
    BytesAt(g.cells, k);
  }

  /**
   evbuffer_expand_singlechain passes over the first chunk with space, which has too little and is not worth
   realigning, and settles on a spare chunk that is not the last one.
   */
  ghost predicate Skips(g: Abs, datlen: nat)
  {
    && g.mark + 2 < |g.cells|
    && g.cells[g.mark].off > 0
    && 0 < g.cells[g.mark].SpaceLen() < datlen <= g.cells[g.mark + 1].SpaceLen()
    && !ShouldRealign(Chain(NULL, g.cells[g.mark].misalign, g.cells[g.mark].off, g.cells[g.mark].buffer), datlen)
  }

  /** The first chunk with space, if there is one. */
  method ChunkWithSpace(m: Memory, b: Evbuffer, ghost g: Abs) returns (chain: Ptr, ghost r: nat)
    requires b.Pointed(m, g)
    ensures r == FirstSpace(g) <= |g.cells| && chain == At(g.cells, r, NULL) && (chain == NULL <==> r == |g.cells|)
    ensures r < |g.cells| ==>
      chain in m && m[chain] == Chain(At(g.cells, r + 1, NULL), g.cells[r].misalign, g.cells[r].off, g.cells[r].buffer)
    ensures r < |g.cells| ==> g.cells[r].Ok()
  {
    hide Bytes, BytesTo, Seg, Sound, Spare, Addrs, Cell.Data;
    r := g.mark;
    DerefAt(m, b, g.cells, r);
    if r < |g.cells| { ChunkAt(m, g.cells, r); }
    var chainp := b.lastWithDatap;
    if b.Deref(m, chainp) != NULL && m[b.Deref(m, chainp)].SpaceLen() == 0 {
      chainp := NextOf(b.Deref(m, chainp));
      r := r + 1;
    }
    DerefAt(m, b, g.cells, r);
    if r < |g.cells| { ChunkAt(m, g.cells, r); }
    chain := b.Deref(m, chainp);
  }

  /** The chunk r of g', which is result, has the space that was asked for of g. */
  ghost predicate Found(g: Abs, g': Abs, datlen: nat, result: Ptr, r: nat)
  {
    && r < |g'.cells| && g'.cells[r].at == result && g'.cells[r].SpaceLen() >= datlen
    && (r == FirstSpace(g') || r == g'.mark + 1)
    && (Skips(g, datlen) <==> r != FirstSpace(g') && r != |g'.cells| - 1)
  }

  lemma FoundHere(g: Abs, datlen: nat, r: nat)
    requires r == FirstSpace(g) < |g.cells| && g.cells[r].SpaceLen() >= datlen && g.cells[r].Ok()
    ensures Found(g, g, datlen, g.cells[r].at, r)
  {}

  lemma FoundRealigned(g: Abs, g': Abs, datlen: nat, r: nat, ch: Chain)
    requires Marked(g.cells, g.mark) && r == FirstSpace(g) < |g.cells| && CellOf(g.cells[r].at, ch) == g.cells[r]
    requires ch.off > 0 && ShouldRealign(ch, datlen)
    requires g'.mark == g.mark && |g'.cells| == |g.cells|
    requires (forall i :: 0 <= i < |g.cells| && i != r ==> g'.cells[i] == g.cells[i])
    requires g'.cells[r].SpaceLen() == |g.cells[r].buffer| - g.cells[r].off
    ensures Found(g, g', datlen, g'.cells[r].at, r)
  {}

  lemma FoundNext(g: Abs, datlen: nat, r: nat, ch: Chain)
    requires Marked(g.cells, g.mark) && r == FirstSpace(g) && r + 1 < |g.cells|
    requires CellOf(g.cells[r].at, ch) == g.cells[r] && g.cells[r].Ok()
    requires ch.off > 0 && !ShouldRealign(ch, datlen) && ch.SpaceLen() < datlen <= g.cells[r + 1].SpaceLen()
    ensures Found(g, g, datlen, g.cells[r + 1].at, r + 1)
  {}

  lemma NoSkip(g: Abs, datlen: nat, r: nat)
    requires r == FirstSpace(g)
    requires r + 1 >= |g.cells| || g.cells[r].off == 0 || g.cells[r + 1].SpaceLen() < datlen
    ensures !Skips(g, datlen)
  {}

  lemma FoundNew(g: Abs, g': Abs, datlen: nat, r: nat, result: Ptr)
    requires r == |g'.cells| - 1 && g'.mark <= r <= g'.mark + 1 && g'.cells[r].at == result
    requires datlen <= g'.cells[r].SpaceLen() && g'.cells[r].SpaceLen() > 0 && !Skips(g, datlen)
    ensures Found(g, g', datlen, result, r)
  {}

  /**
   evbuffer_expand_singlechain goes for a larger chunk, which it does only for a size that no chunk can have,
   and the length it needs, off + datlen, wraps round to a small one.
   */
  ghost predicate Wraps(g: Abs, datlen: nat)
  {
    FirstSpace(g) < |g.cells| &&
    var c := g.cells[FirstSpace(g)];
    && 0 < c.off <= MAX_TO_COPY_IN_EXPAND && |c.buffer| / 8 <= c.SpaceLen() < datlen
    && !ShouldRealign(Chain(NULL, c.misalign, c.off, c.buffer), datlen) && c.off + datlen > SIZE_MAX
  }

  /** The first chunk with space has enough. */
  ghost predicate Roomy(g: Abs, datlen: nat)
  {
    FirstSpace(g) < |g.cells| && g.cells[FirstSpace(g)].SpaceLen() >= datlen
  }

  /** What evbuffer_expand_singlechain comes to: its last assertion may fail, or it copies more than fits. */
  datatype Expansion = Ready | TooLarge | Asserts | Overruns

  /** A length that has wrapped is less than off, and what is allocated for it is too small in one of three cases. */
  lemma WrappedRoom(off: nat, datlen: nat)
    requires off <= MAX_TO_COPY_IN_EXPAND && datlen <= SIZE_MAX < off + datlen
    ensures var length := off + datlen - TWO64;
      && 0 <= length < off
      && (off > ChainRoom(length) <==>
          (length <= 976 < off) || (length <= 2000 < off) || (length <= 4048 < off))
  {
    var length := off + datlen - TWO64;
    assert Doubled(1024, length + 48) == if length <= 976 then 1024 else Doubled(2048, length + 48);
    assert Doubled(2048, length + 48) == if length <= 2000 then 2048 else Doubled(4096, length + 48);
    assert Doubled(4096, length + 48) == if length <= 4048 then 4096 else Doubled(8192, length + 48);
  }

  /**
   evbuffer_expand_singlechain, on a Valid buffer; or on any other one as far as it only finds that there is
   enough space already.
   */
  method ExpandSinglechain(m: Memory, b: Evbuffer, ghost g: Abs, datlen: nat)
    returns (e: Expansion, result: Ptr, m': Memory, b': Evbuffer, ghost g': Abs, ghost r: nat)
    requires b.Pointed(m, g) && (Marked(g.cells, g.mark) || Roomy(g, datlen)) && datlen <= SIZE_MAX
    ensures b'.Pointed(m', g') && Kept(m, g.cells, m', g'.cells) && g'.Contents() == g.Contents()
    ensures b.Valid(m, g) ==> b'.Valid(m', g')
    ensures Roomy(g, datlen) ==> e.Ready? && m' == m && b' == b && g' == g && r == FirstSpace(g)
    ensures e.Asserts? || e.Overruns? <==> Wraps(g, datlen)
    ensures Wraps(g, datlen) ==>
      var off := g.cells[FirstSpace(g)].off;
      off + datlen >= TWO64 && (e.Overruns? <==> off > ChainRoom(off + datlen - TWO64))
    ensures !e.Ready? ==> m' == m && b' == b && g' == g && datlen > CHAIN_MAX - MAX_TO_COPY_IN_EXPAND
    ensures e.Ready? && FirstSpace(g) == |g.cells| ==>
      |g'.cells| > 0 && g' == Inserted(g, g'.cells[|g'.cells| - 1]) && g'.cells[|g'.cells| - 1].off == 0
    ensures datlen > CHAIN_MAX - CHAIN_SIZE ==> !e.Ready?
    ensures e.Ready? ==> result != NULL && Found(g, g', datlen, result, r)
    ensures e.Ready? && b.Valid(m, g) && g.Tight() && g.Packed() ==> g'.Close() && r == |g'.cells| - 1
    ensures g.Packed() ==> g'.Packed()
  {
    hide Bytes, BytesTo, Seg, Sound, Kept, Spare, Addrs, Cell.Data, Found, ShouldRealign, Marked, Skips, Inserted,
      ChainRoom, Abs.Tight, Abs.Packed, Abs.Close, Abs.Contents;
    m', b', g', e := m, b, g, Ready;
    ValidIs(m, b, g);
    KeptAll(m, g.cells, NULL);
    var chain;
    chain, r := ChunkWithSpace(m, b, g);
    if chain == NULL {
      NoSkip(g, datlen, r);
      e, result, m', b', g', r := ExpandNew(m, b, g, datlen);
      ValidIs(m', b', g');
      return;
    }
    var ch := m[chain];
    if Marked(g.cells, g.mark) { TightSpace(g); }
    ShouldSame(ch, g.cells[r], datlen);
    result := chain;
    if ch.SpaceLen() >= datlen {
      FoundHere(g, datlen, r);
      return;
    }
    if ch.off != 0 && ShouldRealign(ch, datlen) {
      m', b', g' := Realign(m, b, g, r, chain);
      FoundRealigned(g, g', datlen, r, ch);
      CloseSame(g, g');
      ValidIs(m', b', g');
      return;
    }
    if ch.off != 0 {
      if ch.SpaceLen() >= |ch.buffer| / 8 && ch.off <= MAX_TO_COPY_IN_EXPAND
        && (datlen >= CHAIN_MAX || CHAIN_MAX - datlen < ch.off) {
        // A larger chunk is tried only for sizes that no chunk can have.
        ghost var c;
        var m1;
        m1, result, c := ChainNew(m, (ch.off + datlen) % TWO64);
        if result == NULL {
          e := TooLarge;
        } else if ch.off > |m1[result].buffer| {
          e := Overruns;
        } else {
          // The data is copied; and then the chunk is found not to have datlen bytes of space.
          assert |c.buffer| - ch.off < datlen;
          e := Asserts;
        }
        return;
      }
      if r + 1 < |g.cells| { ChunkAt(m, g.cells, r + 1); }
      if ch.next != NULL && m[ch.next].SpaceLen() >= datlen {
        FoundNext(g, datlen, r, ch);
        result := ch.next;
        r := r + 1;
        return;
      }
    }
    NoSkip(g, datlen, r);
    e, result, m', b', g', r := ExpandNew(m, b, g, datlen);
    ValidIs(m', b', g');
  }

  /** In a Tight buffer the first chunk with space is the last one, or there is none. */
  lemma TightSpace(g: Abs)
    requires Marked(g.cells, g.mark)
    ensures g.Tight() && g.Packed() ==> g.Close() && (FirstSpace(g) < |g.cells| ==> FirstSpace(g) == |g.cells| - 1)
  {}

  lemma CloseSame(g: Abs, g': Abs)
    requires |g'.cells| == |g.cells| && forall i :: 0 <= i < |g.cells| ==> g'.cells[i].off == g.cells[i].off
    requires g'.mark == g.mark
    ensures (g.Close() ==> g'.Close()) && (g.Packed() ==> g'.Packed())
  {}

  /** The end of evbuffer_expand_singlechain: a new chunk. */
  method ExpandNew(m: Memory, b: Evbuffer, ghost g: Abs, datlen: nat)
    returns (e: Expansion, result: Ptr, m': Memory, b': Evbuffer, ghost g': Abs, ghost r: nat)
    requires b.Valid(m, g) && !Skips(g, datlen)
    ensures b'.Valid(m', g') && Kept(m, g.cells, m', g'.cells) && g'.Contents() == g.Contents()
    ensures e == if datlen > CHAIN_MAX - CHAIN_SIZE then TooLarge else Ready
    ensures e.TooLarge? ==> m' == m && b' == b && g' == g
    ensures e.Ready? ==>
      |g'.cells| > 0 && g' == Inserted(g, g'.cells[|g'.cells| - 1]) && g'.cells[|g'.cells| - 1].off == 0
    ensures e.Ready? ==> result != NULL && Found(g, g', datlen, result, r)
    ensures e.Ready? && g.Tight() && g.Packed() ==> g'.Close() && r == |g'.cells| - 1
    ensures g.Packed() ==> g'.Packed()
  {
    hide Bytes, BytesTo, Seg, Sound, Kept, Spare, Addrs, Cell.Data, Found, Marked, Skips, Inserted, Abs.Tight,
      Abs.Packed, Abs.Close, Abs.Contents;
    result, m', b', g' := InsertNew(m, b, g, datlen);
    if result == NULL {
      e, r := TooLarge, 0;
      return;
    }
    e, r := Ready, |g'.cells| - 1;
    MarkWithin(g);
    InsertedClose(g, g');
    FoundNew(g, g', datlen, r, result);
  }

  lemma MarkWithin(g: Abs)
    requires Marked(g.cells, g.mark)
    ensures g.mark <= |g.cells|
  {}

  lemma InsertedClose(g: Abs, g': Abs)
    requires g.mark <= |g.cells| && |g'.cells| > 0 && g' == Inserted(g, g'.cells[|g'.cells| - 1])
    ensures g.Tight() && g.Packed() ==> g'.Close()
  {
    hide VictimAt, Inserted;
    InsertedIs(g, g'.cells[|g'.cells| - 1]);
    VictimRun(g.cells, g.mark);
  }

  lemma ShouldSame(ch: Chain, c: Cell, datlen: nat)
    requires ch.misalign == c.misalign && ch.off == c.off && ch.buffer == c.buffer
    ensures ShouldRealign(Chain(NULL, c.misalign, c.off, c.buffer), datlen) == ShouldRealign(ch, datlen)
  {}

  // ----- space over several chunks

  /** The space in the n chunks from index from on. */
  ghost function Room(cs: seq<Cell>, from: nat, n: nat): (r: int)
    requires from + n <= |cs|
  {
    if n == 0 then 0 else Room(cs, from, n - 1) + cs[from + n - 1].SpaceLen()
  }

  lemma {:induction false} RoomSame(cs: seq<Cell>, cs': seq<Cell>, from: nat, n: nat)
    requires from + n <= |cs| && from + n <= |cs'|
    requires forall i :: from <= i < from + n ==> cs[i].SpaceLen() == cs'[i].SpaceLen()
    ensures Room(cs, from, n) == Room(cs', from, n)
  {
    if n > 0 { RoomSame(cs, cs', from, n - 1); }
  }

  lemma {:induction false} RoomGrows(cs: seq<Cell>, from: nat, n: nat, n': nat)
    requires n <= n' && from + n' <= |cs| && AllOk(cs)
    ensures 0 <= Room(cs, from, n) <= Room(cs, from, n')
  {
    if n < n' {
      RoomGrows(cs, from, n, n' - 1);
      assert cs[from + n' - 1].Ok();
    } else if n > 0 {
      RoomGrows(cs, from, n - 1, n - 1);
      assert cs[from + n - 1].Ok();
    }
  }

  /** How much space one chunk has; an empty one is realigned first. */
  method Measure(m: Memory, b: Evbuffer, ghost g: Abs, ghost i: nat, chain: Ptr)
    returns (space: nat, next: Ptr, m': Memory, ghost g': Abs)
    requires b.Valid(m, g) && i < |g.cells| && chain == g.cells[i].at
    ensures b.Valid(m', g') && Kept(m, g.cells, m', g'.cells) && g'.Contents() == g.Contents() && g'.mark == g.mark
    ensures |g'.cells| == |g.cells| && (forall k :: 0 <= k < |g.cells| && k != i ==> g'.cells[k] == g.cells[k])
    ensures g'.cells[i].off == g.cells[i].off && space == g'.cells[i].SpaceLen() && next == At(g'.cells, i + 1, NULL)
    ensures space == 0 <==> g.cells[i].off > 0 && g.cells[i].SpaceLen() == 0
  {
    hide Bytes, BytesTo, Seg, Kept, Spare, Addrs, Cell.Data;
    ChunkAt(m, g.cells, i);
    KeptAll(m, g.cells, NULL);
    m', g', space := m, g, m[chain].SpaceLen();
    next := m[chain].next;
    if m[chain].off == 0 {
      space := |m[chain].buffer|;
      var same;
      m', same, g' := Realign(m, b, g, i, chain);
    }
  }

  /** What has been counted when the chunks of g before i have been looked at, and have become those of h. */
  ghost predicate Measured(g: Abs, h: Abs, i: nat, used: nat, avail: int)
  {
    && h.mark == g.mark <= i <= |g.cells| == |h.cells| && g.mark < |g.cells|
    && (forall k :: 0 <= k < |g.cells| ==> h.cells[k].off == g.cells[k].off)
    && (forall k :: i <= k < |g.cells| ==> h.cells[k] == g.cells[k])
    && if i == g.mark then used == 0 && avail == 0
       else FirstSpace(h) <= i && used == i - FirstSpace(h) && avail == Room(h.cells, FirstSpace(h), used)
  }

  lemma CountStep(g: Abs, h: Abs, i: nat, used: nat, avail: int, space: nat, h': Abs)
    requires Measured(g, h, i, used, avail) && i < |g.cells| && Marked(g.cells, g.mark) && |h'.cells| == |h.cells|
    requires h'.mark == h.mark
    requires forall k :: 0 <= k < |h.cells| && k != i ==> h'.cells[k] == h.cells[k]
    requires h'.cells[i].off == h.cells[i].off && space == h'.cells[i].SpaceLen()
    requires space == 0 <==> h.cells[i].off > 0 && h.cells[i].SpaceLen() == 0
    ensures Measured(g, h', i + 1, if space != 0 then used + 1 else used, avail + space)
    ensures i > g.mark ==> space != 0
  {
    if i > g.mark {
      RoomSame(h.cells, h'.cells, FirstSpace(h), used);
    }
  }

  /**
   The first loop of _evbuffer_expand_fast: how much space the chunks from last_with_data on have, n of them
   at most.
   */
  method CountRoom(m: Memory, b: Evbuffer, ghost g: Abs, datlen: nat, n: nat)
    returns (chain: Ptr, avail: nat, used: nat, m': Memory, ghost g': Abs, ghost i: nat)
    requires b.Valid(m, g) && |g.cells| > 0 && n > 0
    ensures b.Valid(m', g') && Kept(m, g.cells, m', g'.cells) && g'.Contents() == g.Contents()
    ensures Measured(g, g', i, used, avail) && i > g.mark && used <= n
    ensures avail >= datlen || used == n || (chain == NULL && i == |g.cells|)
  {
    hide Bytes, BytesTo, Seg, Kept, Spare, Addrs, Cell.Data, Sound, Marked, Abs.Contents, Measured, Room;
    m', g', i, used, avail := m, g, g.mark, 0, 0;
    KeptAll(m, g.cells, NULL);
    CountNone(g);
    DerefAt(m, b, g.cells, g.mark);
    chain := b.Deref(m, b.lastWithDatap);
    while chain != NULL
      invariant b.Valid(m', g') && Kept(m, g.cells, m', g'.cells) && g'.Contents() == g.Contents()
      invariant Measured(g, g', i, used, avail) && g.mark <= i <= |g.cells| == |g'.cells|
      invariant chain == At(g'.cells, i, NULL)
      invariant used < n
      decreases |g.cells| - i
    {
      ghost var m0, g0 := m', g';
      NotNull(g'.cells, i, chain);
      var space;
      space, chain, m', g' := Measure(m', b, g', i, chain);
      KeptSteps(m, g.cells, m0, g0.cells, m', g'.cells);
      CountStep(g, g0, i, used, avail, space, g');
      if space != 0 {
        avail := avail + space;
        used := used + 1;
      }
      i := i + 1;
      if avail >= datlen || used == n {
        return;
      }
    }
    if i < |g.cells| { CellOk(g'.cells, i); }
  }

  lemma CountNone(g: Abs)
    requires Marked(g.cells, g.mark) && |g.cells| > 0
    ensures Measured(g, g, g.mark, 0, 0) && g.mark < |g.cells|
  {}

  lemma NotNull(cs: seq<Cell>, i: nat, p: Ptr)
    ensures p != NULL && p == At(cs, i, NULL) ==> i < |cs| && cs[i].at == p
  {}

  /** The first n chunks with space have room for datlen bytes. */
  ghost predicate HasRoom(g: Abs, n: nat, datlen: nat)
  {
    |g.cells| > 0 && exists cnt: nat ::
      cnt <= n && FirstSpace(g) + cnt <= |g.cells| && Room(g.cells, FirstSpace(g), cnt) >= datlen
  }

  /** A chunk at the very end. */
  method AppendSpare(m: Memory, b: Evbuffer, ghost g: Abs, size: nat)
    returns (ok: bool, m': Memory, b': Evbuffer, ghost g': Abs, ghost c: Cell)
    requires b.Valid(m, g) && |g.cells| > 0
    ensures b'.Valid(m', g') && Kept(m, g.cells, m', g'.cells) && g'.Contents() == g.Contents()
    ensures ok <==> size <= CHAIN_MAX - CHAIN_SIZE
    ensures if ok then g' == Abs(g.cells + [c], g.mark) && c.Ok() && c.SpaceLen() >= size
      else m' == m && b' == b && g' == g
    ensures g.Packed() ==> g'.Packed()
  {
    hide Bytes, BytesTo, Seg, Sound, Kept, Addrs, Cell.Data;
    ok, m', b', g' := false, m, b, g;
    KeptAll(m, g.cells, NULL);
    var tmp;
    m', tmp, c := ChainNew(m, size);
    if tmp == NULL {
      return;
    }
    ok := true;
    KeptNew(m, g.cells, NULL, c, m'[tmp]);
    ghost var m1, n := m', |g.cells|;
    ChunkAt(m', g.cells, n - 1);
    SpareData(c);
    m' := m'[b.last := m'[b.last].(next := tmp)];
    b' := b.(last := tmp);
    g' := Abs(g.cells + [c], g.mark);
    assert g.cells[..n] == g.cells && g.cells[n..] == [];
    NoAddrs([]);
    assert m1 - Addrs([]) == m1;
    Placed(m1, b, g.cells, n, c, m', b');
    KeptSteps(m, g.cells, m1, g.cells + [c], m', g'.cells);
  }

  /** Throwing the spare chunks after the last one with data away. */
  method NukeSpare(m: Memory, b: Evbuffer, ghost g: Abs) returns (m': Memory, b': Evbuffer, ghost g': Abs)
    requires b.Valid(m, g) && |g.cells| > 0
    ensures b'.Valid(m', g') && Kept(m, g.cells, m', g'.cells) && g'.Contents() == g.Contents()
    ensures g' ==
      if g.mark < |g.cells| && g.cells[g.mark].off > 0 then Abs(g.cells[..g.mark + 1], g.mark) else Abs([], 0)
  {
    hide Bytes, BytesTo, Seg, Sound, Kept, Addrs, Cell.Data, Spare;
    ghost var cs := g.cells;
    DerefAt(m, b, cs, g.mark);
    ChunkAt(m, cs, g.mark);
    var chain := b.Deref(m, b.lastWithDatap);
    if m[chain].off == 0 {
      m' := FreeAllChains(m, b.first, cs);
      b', g' := EMPTY, Abs([], 0);
      EmptyValid(m');
      AllSpare(g);
    } else {
      ghost var j := g.mark + 1;
      SegSplit(m, cs, NULL, j);
      SoundSplit(cs, j);
      AddrIn(cs[..j], j - 1);
      TailSpare(g);
      BytesTrim(cs, j);
      m' := FreeAllChains(m, m[chain].next, cs[j..]);
      m' := m'[chain := m'[chain].(next := NULL)];
      b' := b.(last := chain);
      g' := Abs(cs[..j], g.mark);
      CutOff(m, cs, j, m');
    }
  }

  lemma AllSpare(g: Abs)
    requires Marked(g.cells, g.mark) && |g.cells| > 0 && g.cells[g.mark].off == 0
    ensures Bytes(g.cells) == [] && Bytes([]) == []
  {
    BytesSpare(g.cells);
    BytesNone();
  }

  lemma TailSpare(g: Abs)
    requires Marked(g.cells, g.mark) && g.mark < |g.cells|
    ensures Spare(g.cells[g.mark + 1..])
  {}

  lemma OneHasRoom(g: Abs, n: nat, datlen: nat)
    requires |g.cells| == 1 && g.mark == 0 && g.cells[0].SpaceLen() >= datlen && g.cells[0].SpaceLen() > 0 && n >= 1
    ensures HasRoom(g, n, datlen)
  {
    assert FirstSpace(g) + 1 <= |g.cells| && Room(g.cells, FirstSpace(g), 1) >= datlen;
  }

  lemma MeasuredHasRoom(g: Abs, h: Abs, i: nat, used: nat, avail: nat, n: nat, datlen: nat)
    requires Measured(g, h, i, used, avail) && i > g.mark && used <= n && avail >= datlen
    ensures HasRoom(h, n, datlen)
  {
    assert FirstSpace(h) + used <= |h.cells| && Room(h.cells, FirstSpace(h), used) >= datlen;
  }

  /** One more chunk makes the room that was missing. */
  lemma MoreHasRoom(g: Abs, used: nat, c: Cell, n: nat, datlen: nat)
    requires |g.cells| > 0 && g.mark < |g.cells| && FirstSpace(g) + used == |g.cells| && used < n
    requires Room(g.cells, FirstSpace(g), used) + c.SpaceLen() >= datlen
    ensures HasRoom(Abs(g.cells + [c], g.mark), n, datlen)
  {
    var cs := g.cells + [c];
    RoomSame(g.cells, cs, FirstSpace(g), used);
    assert Room(cs, FirstSpace(g), used + 1) >= datlen;
    assert FirstSpace(Abs(cs, g.mark)) == FirstSpace(g);
  }

  /** The end of _evbuffer_expand_fast: the spare chunks make way for one with enough space. */
  method Replace(m: Memory, b: Evbuffer, ghost g: Abs, datlen: nat, n: nat)
    returns (ok: bool, m': Memory, b': Evbuffer, ghost g': Abs)
    requires b.Valid(m, g) && n >= 2 && |g.cells| > 0
    requires g.cells[g.mark].off > 0 ==> g.cells[g.mark].SpaceLen() <= datlen
    ensures b'.Valid(m', g') && Kept(m, g.cells, m', g'.cells) && g'.Contents() == g.Contents()
    ensures datlen <= CHAIN_MAX - CHAIN_SIZE ==> ok
    ensures ok ==> HasRoom(g', n, datlen)
    ensures g.Packed() ==> g'.Packed()
  {
    hide Bytes, BytesTo, Seg, Sound, Kept, Addrs, Cell.Data, Spare, Room, HasRoom;
    DerefAt(m, b, g.cells, g.mark);
    ChunkAt(m, g.cells, g.mark);
    var ch := m[b.Deref(m, b.lastWithDatap)];
    var avail := if ch.off == 0 then 0 else ch.SpaceLen();
    m', b', g' := NukeSpare(m, b, g);
    ghost var m1, g1 := m', g';
    if ch.off == 0 {
      var tmp;
      tmp, m', b', g' := InsertNew(m', b', g', datlen - avail);
      ok := tmp != NULL;
      if ok { OneHasRoom(g', n, datlen); }
    } else {
      ghost var c;
      ok, m', b', g', c := AppendSpare(m', b', g', datlen - avail);
      RoomNone(g1.cells, |g1.cells|);
      if avail > 0 { RoomNext(g1.cells, g1.cells, g.mark, 0); }
      if ok { MoreHasRoom(g1, if avail > 0 then 1 else 0, c, n, datlen); }
    }
    KeptSteps(m, g.cells, m1, g1.cells, m', g'.cells);
  }

  /** One more chunk's space, when only that chunk changes. */
  lemma RoomNext(cs: seq<Cell>, cs': seq<Cell>, from: nat, n: nat)
    requires from + n < |cs| == |cs'|
    requires forall i :: 0 <= i < |cs| && i != from + n ==> cs[i] == cs'[i]
    ensures Room(cs', from, n + 1) == Room(cs, from, n) + cs'[from + n].SpaceLen()
    ensures Room(cs, from, 0) == 0
  {
    RoomSame(cs, cs', from, n);
  }

  lemma RoomNone(cs: seq<Cell>, from: nat)
    ensures from <= |cs| ==> Room(cs, from, 0) == 0
  {}

  /** _evbuffer_expand_fast */
  method ExpandFast(m: Memory, b: Evbuffer, ghost g: Abs, datlen: nat, n: nat)
    returns (ok: bool, m': Memory, b': Evbuffer, ghost g': Abs)
    requires b.Valid(m, g) && n >= 2
    ensures b'.Valid(m', g') && Kept(m, g.cells, m', g'.cells) && g'.Contents() == g.Contents()
    ensures datlen <= CHAIN_MAX - CHAIN_SIZE ==> ok
    ensures ok ==> HasRoom(g', n, datlen)
    ensures g.Packed() ==> g'.Packed()
  {
    hide Bytes, BytesTo, Seg, Sound, Kept, Addrs, Cell.Data, Spare, Room, HasRoom;
    if |g.cells| > 0 { CellOk(g.cells, |g.cells| - 1); }
    if b.last == NULL {
      var result;
      result, m', b', g' := InsertNew(m, b, g, datlen);
      ok := result != NULL;
      if ok { OneHasRoom(g', n, datlen); }
      return;
    }
    var chain, avail, used; ghost var i;
    chain, avail, used, m', g', i := CountRoom(m, b, g, datlen, n);
    ok, b' := true, b;
    ghost var m1, g1 := m', g';
    KeptAll(m', g'.cells, NULL);
    if avail >= datlen {
      MeasuredHasRoom(g, g', i, used, avail, n, datlen);
    } else if used < n {
      ghost var c;
      ok, m', b', g', c := AppendSpare(m', b, g', datlen - avail);
      if ok { MoreHasRoom(g1, used, c, n, datlen); }
    } else {
      MarkRoom(g, g', i, used, avail);
      ok, m', b', g' := Replace(m', b, g', datlen, n);
    }
    KeptSteps(m, g.cells, m1, g1.cells, m', g'.cells);
  }

  /** The room counted covers that of last_with_data. */
  lemma MarkRoom(g: Abs, h: Abs, i: nat, used: nat, avail: nat)
    requires Measured(g, h, i, used, avail) && i > g.mark && Sound(h.cells)
    ensures h.cells[h.mark].SpaceLen() <= avail
  {
    if FirstSpace(h) == h.mark {
      RoomGrows(h.cells, h.mark, 1, used);
      assert Room(h.cells, h.mark, 1) == Room(h.cells, h.mark, 0) + h.cells[h.mark].SpaceLen();
    }
  }
}
