/** evbuffer_reserve_space and evbuffer_commit_space. */
module EvbufferCommit {
  import opened Basics
  import opened Chunks
  import opened Evbuffers
  import opened EvbufferReserve

  /** struct evbuffer_iovec: len bytes at chunk->buffer + pos */
  datatype Vec = Vec(chain: Ptr, pos: nat, len: nat)

  /** The bytes that iovecs cover. */
  ghost function Covered(m: Memory, vecs: seq<Vec>): (s: seq<byte>)
  {
    if vecs == [] then []
    else Covered(m, vecs[..|vecs| - 1]) + CoveredBy(m, vecs[|vecs| - 1])
  }

  ghost function CoveredBy(m: Memory, v: Vec): (s: seq<byte>)
  {
    if v.chain in m && v.pos + v.len <= |m[v.chain].buffer| then m[v.chain].buffer[v.pos..v.pos + v.len] else []
  }

  ghost predicate InSpace(c: Cell, v: Vec)
  {
    v.chain == c.at && v.pos == c.misalign + c.off && v.len <= c.SpaceLen()
  }

  /** The iovecs lie in the space of consecutive chunks, from index r on. */
  ghost predicate Offered(cs: seq<Cell>, r: nat, vecs: seq<Vec>)
  {
    r + |vecs| <= |cs| && forall i :: 0 <= i < |vecs| ==> InSpace(cs[r + i], vecs[i])
  }

  ghost function TotalLen(vecs: seq<Vec>): (n: nat)
  {
    if vecs == [] then 0 else TotalLen(vecs[..|vecs| - 1]) + vecs[|vecs| - 1].len
  }

  lemma TotalNone()
    ensures TotalLen([]) == 0
  {}

  lemma TotalNext(vecs: seq<Vec>, v: Vec)
    ensures TotalLen(vecs + [v]) == TotalLen(vecs) + v.len
  {
    assert (vecs + [v])[..|vecs|] == vecs;
  }

  lemma CoveredNext(m: Memory, vecs: seq<Vec>, v: Vec)
    ensures Covered(m, vecs + [v]) == Covered(m, vecs) + CoveredBy(m, v)
  {
    assert (vecs + [v])[..|vecs|] == vecs;
  }

  /** data put in after the bytes of the first k chunks. */
  ghost function PutAfter(cs: seq<Cell>, k: nat, data: seq<byte>): (s: seq<byte>)
    requires k <= |cs|
  {
    Bytes(cs[..k]) + data + Bytes(cs[k..])
  }

  /** After the chunks from k on, which are spare, is at the end. */
  lemma PutAtEnd(cs: seq<Cell>, k: nat, data: seq<byte>)
    requires k <= |cs| && Spare(cs[k..])
    ensures PutAfter(cs, k, data) == Bytes(cs) + data
  {
    hide Bytes, BytesTo, Spare;
    BytesSplit(cs, k);
    BytesSpare(cs[k..]);
    var x := Bytes(cs[..k]);
    assert x + [] == x && x + data + [] == x + data;
  }

  /** Growing the chunk k over len bytes of its space, wherever last_with_datap points. */
  lemma Grown(m: Memory, b: Evbuffer, g: Abs, k: nat, len: nat, c: Cell, m': Memory, b': Evbuffer)
    requires b.Pointed(m, g) && k < |g.cells| && len <= g.cells[k].SpaceLen()
    requires c == g.cells[k].(off := g.cells[k].off + len)
    requires c.at in m && m' == m[c.at := m[c.at].(off := c.off)]
    requires b' == b.(lastWithDatap := if len > 0 then SlotOf(g.cells, k) else b.lastWithDatap,
                      totalLen := b.totalLen + len)
    ensures var g' := Abs(g.cells[k := c], if len > 0 then k else g.mark);
      && b'.Pointed(m', g') && Kept(m, g.cells, m', g'.cells)
      && g'.Contents() == PutAfter(g.cells, k + 1, CoveredBy(m, Vec(c.at, c.misalign + g.cells[k].off, len)))
  {
    hide Bytes, BytesTo, Seg, Kept, Spare, Addrs, Cell.Data, CoveredBy, Sound;
    ChunkAt(m, g.cells, k);
    GrownCell(g.cells[k], m, len, c);
    Rewritten(m, b, g.cells, k, c, m', b');
    BytesPush(g.cells[..k], g.cells[k]);
    assert g.cells[..k + 1] == g.cells[..k] + [g.cells[k]];
    var x, d := Bytes(g.cells[..k]), CoveredBy(m, Vec(c.at, c.misalign + g.cells[k].off, len));
    assert x + (g.cells[k].Data() + d) == x + g.cells[k].Data() + d;
  }

  /** When no data comes after chunk k, the bytes are at the end, and last_with_datap is right. */
  lemma GrownEnd(g: Abs, k: nat, len: nat, data: seq<byte>, g': Abs)
    requires Marked(g.cells, g.mark) && g.mark <= k < |g.cells|
    requires g' == Abs(g.cells[k := g.cells[k].(off := g.cells[k].off + len)], if len > 0 then k else g.mark)
    ensures Marked(g'.cells, g'.mark) && PutAfter(g.cells, k + 1, data) == g.Contents() + data
  {
    hide Bytes, BytesTo, PutAfter;
    assert Spare(g.cells[k + 1..]);
    PutAtEnd(g.cells, k + 1, data);
  }

  lemma GrownCell(c: Cell, m: Memory, len: nat, c': Cell)
    requires c.Ok() && c.at in m && c == CellOf(c.at, m[c.at]) && len <= c.SpaceLen() && c' == c.(off := c.off + len)
    ensures c'.Ok() && c'.Data() == c.Data() + CoveredBy(m, Vec(c.at, c.misalign + c.off, len))
  {}

  /** _evbuffer_read_setup_vecs */
  method SetupVecs(m: Memory, b: Evbuffer, ghost g: Abs, howmuch: nat, n: nat, exact: bool) returns (vecs: seq<Vec>)
    requires b.Valid(m, g) && HasRoom(g, n, howmuch)
    ensures |vecs| <= n && Offered(g.cells, FirstSpace(g), vecs) && TotalLen(vecs) >= howmuch
    ensures exact ==> TotalLen(vecs) == howmuch
  {
    hide Bytes, BytesTo, Seg, Kept, Spare, Addrs, Cell.Data, Cell.Ok, Sound, Abs.Contents, Room, TotalLen, Marked;
    ghost var cs, fs := g.cells, FirstSpace(g);
    ghost var cnt: nat :| cnt <= n && fs + cnt <= |cs| && Room(cs, fs, cnt) >= howmuch;
    CountNone(g);
    DerefAt(m, b, cs, g.mark);
    ChunkAt(m, cs, g.mark);
    var chain := b.Deref(m, b.lastWithDatap);
    if m[chain].SpaceLen() == 0 {
      chain := m[chain].next;
    }
    vecs := [];
    var soFar: nat := 0;
    assert TotalLen([]) == 0 by { TotalNone(); }
    RoomNone(cs, fs);
    while |vecs| < n && soFar < howmuch
      invariant |vecs| <= n && |vecs| <= cnt && Offered(cs, fs, vecs) && TotalLen(vecs) == soFar
      invariant soFar < howmuch ==> soFar == Room(cs, fs, |vecs|) && chain == At(cs, fs + |vecs|, NULL)
      invariant exact ==> soFar <= howmuch
      invariant |vecs| == cnt ==> soFar >= howmuch
      decreases n - |vecs|
    {
      ghost var k := fs + |vecs|;
      ChunkAt(m, cs, k);
      var avail := m[chain].SpaceLen();
      if avail > howmuch - soFar && exact {
        avail := howmuch - soFar;
      }
      TotalNext(vecs, Vec(chain, m[chain].misalign + m[chain].off, avail));
      RoomNext(cs, cs, fs, |vecs|);
      vecs := vecs + [Vec(chain, m[chain].misalign + m[chain].off, avail)];
      soFar := soFar + avail;
      chain := m[chain].next;
    }
  }

  /** Whether evbuffer_reserve_space may have handed out these iovecs, from the space of the chunks at r on. */
  ghost predicate Reserved(g: Abs, r: nat, vecs: seq<Vec>)
  {
    Offered(g.cells, r, vecs) && (r == FirstSpace(g) || (|vecs| <= 1 && r == g.mark + 1))
  }

  /** evbuffer_reserve_space for one iovec */
  method ReserveOne(m: Memory, b: Evbuffer, ghost g: Abs, size: nat)
    returns (n: int, vecs: seq<Vec>, m': Memory, b': Evbuffer, ghost g': Abs, ghost r: nat)
    requires b.Pointed(m, g) && (Marked(g.cells, g.mark) || Roomy(g, size)) && size <= SSIZE_MAX
    ensures b'.Pointed(m', g') && Kept(m, g.cells, m', g'.cells) && g'.Contents() == g.Contents()
    ensures b.Valid(m, g) ==> b'.Valid(m', g')
    ensures Roomy(g, size) ==> n == 1 && b' == b && g' == g && r == FirstSpace(g)
    ensures n == -1 || (n == |vecs| == 1 && Reserved(g', r, vecs) && TotalLen(vecs) >= size)
    ensures size <= CHAIN_MAX - MAX_TO_COPY_IN_EXPAND ==> n != -1
    ensures n != -1 ==> (Skips(g, size) <==> r != FirstSpace(g') && r != |g'.cells| - 1)
    ensures g.Packed() ==> g'.Packed()
    ensures n != -1 && b.Valid(m, g) && g.Tight() && g.Packed() ==> g'.Close() && r == |g'.cells| - 1
  {
    hide Bytes, BytesTo, Seg, Kept, Spare, Addrs, Cell.Data, Cell.Ok, Sound, Marked, Abs.Contents, Abs.Packed, TotalLen,
      Skips, Roomy;
    n, vecs := -1, [];
    if FirstSpace(g) < |g.cells| {
      CellOk(g.cells, FirstSpace(g));
      SmallChunk(g.cells[FirstSpace(g)]);
    }
    var e, chain;
    e, chain, m', b', g', r := ExpandSinglechain(m, b, g, size);
    if e != Ready {
      return;
    }
    ChunkAt(m', g'.cells, r);
    vecs := [Vec(chain, m'[chain].misalign + m'[chain].off, m'[chain].SpaceLen())];
    TotalNone();
    TotalNext([], vecs[0]);
    assert [] + [vecs[0]] == vecs;
    n := 1;
  }

  /** evbuffer_reserve_space */
  method ReserveSpace(m: Memory, b: Evbuffer, ghost g: Abs, size: nat, nVecs: int)
    returns (n: int, vecs: seq<Vec>, m': Memory, b': Evbuffer, ghost g': Abs, ghost r: nat)
    requires b.Pointed(m, g) && (Marked(g.cells, g.mark) || (nVecs == 1 && Roomy(g, size))) && size <= SSIZE_MAX
    ensures b'.Pointed(m', g') && Kept(m, g.cells, m', g'.cells) && g'.Contents() == g.Contents()
    ensures b.Valid(m, g) ==> b'.Valid(m', g')
    ensures nVecs == 1 && Roomy(g, size) ==> n == 1 && b' == b && g' == g && r == FirstSpace(g)
    ensures n == -1 || (n == |vecs| <= nVecs && Reserved(g', r, vecs) && TotalLen(vecs) >= size)
    ensures nVecs >= 1 && size <= CHAIN_MAX - MAX_TO_COPY_IN_EXPAND ==> n != -1
    ensures n != -1 && nVecs >= 2 ==> r == FirstSpace(g')
    ensures n != -1 && nVecs == 1 ==> n == 1 && (Skips(g, size) <==> r != FirstSpace(g') && r != |g'.cells| - 1)
    ensures g.Packed() ==> g'.Packed()
    ensures n != -1 && nVecs == 1 && b.Valid(m, g) && g.Tight() && g.Packed() ==> g'.Close() && r == |g'.cells| - 1
  {
    hide Bytes, BytesTo, Seg, Kept, Spare, Addrs, Cell.Data, Cell.Ok, Sound, Marked, Abs.Contents, Abs.Packed, HasRoom,
      TotalLen, Skips, FirstSpace, Roomy;
    n, vecs, m', b', g', r := -1, [], m, b, g, 0;
    ValidIs(m, b, g);
    KeptAll(m, g.cells, NULL);
    if nVecs < 1 {
      return;
    }
    if nVecs == 1 {
      n, vecs, m', b', g', r := ReserveOne(m, b, g, size);
    } else {
      var ok;
      ok, m', b', g' := ExpandFast(m, b, g, size, nVecs);
      ValidIs(m', b', g');
      if !ok {
        return;
      }
      vecs := SetupVecs(m', b', g', size, nVecs, false);
      n := |vecs|;
      r := FirstSpace(g');
    }
  }

  /** Whether evbuffer_commit_space accepts these iovecs. */
  ghost predicate Accepted(g: Abs, vecs: seq<Vec>)
  {
    || vecs == []
    || (|vecs| == 1 && |g.cells| > 0 && InSpace(g.cells[|g.cells| - 1], vecs[0]))
    || (|g.cells| > 0 && Offered(g.cells, FirstSpace(g), vecs))
  }

  /** Committing len bytes of the space of one chunk. */
  method CommitOne(m: Memory, b: Evbuffer, ghost g: Abs, ghost k: nat, chain: Ptr, chainp: Slot, len: nat)
    returns (m': Memory, b': Evbuffer, ghost g': Abs)
    requires b.Pointed(m, g) && k < |g.cells| && chain == g.cells[k].at && len <= g.cells[k].SpaceLen()
    requires chainp == SlotOf(g.cells, k)
    ensures b'.Pointed(m', g') && Kept(m, g.cells, m', g'.cells) && |g'.cells| == |g.cells|
    ensures var d := CoveredBy(m, Vec(chain, g.cells[k].misalign + g.cells[k].off, len));
      && g'.Contents() == PutAfter(g.cells, k + 1, d)
      && (Marked(g.cells, g.mark) && g.mark <= k ==>
          Marked(g'.cells, g'.mark) && g'.Contents() == g.Contents() + d)
    ensures chain in m && m' == m[chain := m[chain].(off := g.cells[k].off + len)]
    ensures g'.cells == g.cells[k := g.cells[k].(off := g.cells[k].off + len)]
    ensures g'.mark == if len > 0 then k else g.mark
    ensures b' == b.(lastWithDatap := if len > 0 then chainp else b.lastWithDatap, totalLen := b.totalLen + len)
  {
    hide Bytes, BytesTo, Seg, Kept, Spare, Addrs, Cell.Data, Cell.Ok, Sound, Marked, Abs.Contents, CoveredBy, PutAfter;
    ChunkAt(m, g.cells, k);
    m' := m[chain := m[chain].(off := m[chain].off + len)];
    b' := b.(totalLen := b.totalLen + len);
    if len > 0 {
      b' := b'.(lastWithDatap := chainp);
    }
    ghost var c := g.cells[k].(off := g.cells[k].off + len);
    g' := Abs(g.cells[k := c], if len > 0 then k else g.mark);
    Grown(m, b, g, k, len, c, m', b');
    if Marked(g.cells, g.mark) && g.mark <= k {
      GrownEnd(g, k, len, CoveredBy(m, Vec(chain, g.cells[k].misalign + g.cells[k].off, len)), g');
    }
  }

  /** The chunks from index fs on, grown by what the iovecs cover. */
  ghost function Advanced(cs: seq<Cell>, fs: nat, vecs: seq<Vec>): (r: seq<Cell>)
    requires fs + |vecs| <= |cs|
    ensures |r| == |cs|
  {
    if vecs == [] then cs
    else
      var n := |vecs| - 1;
      var part := Advanced(cs, fs, vecs[..n]);
      part[fs + n := part[fs + n].(off := part[fs + n].off + vecs[n].len)]
  }

  lemma AdvancedNone(cs: seq<Cell>, fs: nat)
    requires fs <= |cs|
    ensures Advanced(cs, fs, []) == cs
  {}

  lemma AdvancedNext(cs: seq<Cell>, fs: nat, vecs: seq<Vec>, v: Vec)
    requires fs + |vecs| < |cs|
    ensures var part := Advanced(cs, fs, vecs);
      Advanced(cs, fs, vecs + [v]) == part[fs + |vecs| := part[fs + |vecs|].(off := part[fs + |vecs|].off + v.len)]
  {
    assert (vecs + [v])[..|vecs|] == vecs;
  }

  /** The second pass of evbuffer_commit_space on the buffer g, when the first i iovecs have been committed. */
  ghost predicate Underway(m: Memory, g: Abs, fs: nat, vecs: seq<Vec>, i: nat, m': Memory, b': Evbuffer, g': Abs)
    requires fs + |vecs| <= |g.cells| && i <= |vecs|
  {
    && b'.Pointed(m', g') && Kept(m, g.cells, m', g'.cells) && g'.cells == Advanced(g.cells, fs, vecs[..i])
    && (i == 0 ==> g' == g) && g'.mark <= fs + i
    && (forall k :: fs + i <= k < |g.cells| ==> g'.cells[k] == g.cells[k])
    && (Marked(g.cells, g.mark) ==>
        Marked(g'.cells, g'.mark) && g'.Contents() == g.Contents() + Covered(m, vecs[..i]))
    && (i == |vecs| == 1 ==> g'.Contents() == PutAfter(g.cells, fs + 1, Covered(m, vecs)))
  }

  lemma NotUnderway(m: Memory, b: Evbuffer, g: Abs, fs: nat, vecs: seq<Vec>)
    requires b.Pointed(m, g) && g.mark <= fs && fs + |vecs| <= |g.cells|
    ensures Underway(m, g, fs, vecs, 0, m, b, g)
  {
    hide Bytes, BytesTo, Seg, Kept, Sound, Marked, Covered, Advanced, PutAfter;
    KeptAll(m, g.cells, NULL);
    AdvancedNone(g.cells, fs);
    CoveredNone(m);
    assert vecs[..0] == [] && g.Contents() + [] == g.Contents();
  }

  /** Committing the next iovec. */
  method CommitNext(ghost m: Memory, ghost g: Abs, ghost fs: nat, vecs: seq<Vec>, i: nat, mi: Memory, bi: Evbuffer,
                    ghost gi: Abs, chainp: Slot)
    returns (m': Memory, b': Evbuffer, ghost g': Abs, chainp': Slot)
    requires Seg(m, g.cells, NULL) && Sound(g.cells) && Offered(g.cells, fs, vecs) && i < |vecs|
    requires Underway(m, g, fs, vecs, i, mi, bi, gi) && chainp == SlotOf(gi.cells, fs + i)
    ensures Underway(m, g, fs, vecs, i + 1, m', b', g') && chainp' == SlotOf(g'.cells, fs + i + 1)
  {
    hide Bytes, BytesTo, Seg, Kept, Spare, Addrs, Cell.Data, Cell.Ok, Sound, Marked, Abs.Contents, CoveredBy, Covered,
      Advanced, PutAfter;
    ghost var k := fs + i;
    DerefAt(mi, bi, gi.cells, k);
    ChunkAt(mi, gi.cells, k);
    ChunkAt(m, g.cells, k);
    var chain := bi.Deref(mi, chainp);
    CoveredByHere(m, mi, vecs[i], g.cells[k]);
    CoveredNext(m, vecs[..i], vecs[i]);
    AdvancedNext(g.cells, fs, vecs[..i], vecs[i]);
    assert vecs[..i + 1] == vecs[..i] + [vecs[i]];
    if |vecs| == 1 { OneCovered(m, vecs); }
    m', b', g' := CommitOne(mi, bi, gi, k, chain, chainp, vecs[i].len);
    KeptSteps(m, g.cells, mi, gi.cells, m', g'.cells);
    chainp' := NextOf(chain);
  }

  /** The second pass of evbuffer_commit_space. */
  method CommitAll(m: Memory, b: Evbuffer, ghost g: Abs, ghost fs: nat, firstchainp: Slot, vecs: seq<Vec>)
    returns (m': Memory, b': Evbuffer, ghost g': Abs)
    requires b.Pointed(m, g) && g.mark <= fs <= g.mark + 1 && Offered(g.cells, fs, vecs)
    requires firstchainp == SlotOf(g.cells, fs)
    ensures b'.Pointed(m', g') && Kept(m, g.cells, m', g'.cells) && g'.cells == Advanced(g.cells, fs, vecs)
    ensures Marked(g.cells, g.mark) ==> Marked(g'.cells, g'.mark) && g'.Contents() == g.Contents() + Covered(m, vecs)
    ensures |vecs| == 1 ==> g'.Contents() == PutAfter(g.cells, fs + 1, Covered(m, vecs))
  {
    hide Bytes, BytesTo, Seg, Kept, Spare, Addrs, Cell.Data, Cell.Ok, Sound, Marked, Abs.Contents, CoveredBy, Covered,
      Advanced, PutAfter;
    m', b', g' := m, b, g;
    var chainp := firstchainp;
    NotUnderway(m, b, g, fs, vecs);
    var i := 0;
    while i < |vecs|
      invariant 0 <= i <= |vecs| && Underway(m, g, fs, vecs, i, m', b', g') && chainp == SlotOf(g'.cells, fs + i)
    {
      hide Underway;
      m', b', g', chainp := CommitNext(m, g, fs, vecs, i, m', b', g', chainp);
      i := i + 1;
    }
    assert vecs[..|vecs|] == vecs;
  }

  lemma OneCovered(m: Memory, vecs: seq<Vec>)
    requires |vecs| == 1
    ensures Covered(m, vecs) == CoveredBy(m, vecs[0])
  {
    hide CoveredBy;
    CoveredNone(m);
    CoveredNext(m, [], vecs[0]);
    assert [] + [vecs[0]] == vecs && [] + CoveredBy(m, vecs[0]) == CoveredBy(m, vecs[0]);
  }

  lemma OthersApart(cs: seq<Cell>, k: nat)
    requires Sound(cs) && k < |cs|
    ensures forall i :: k < i < |cs| ==> cs[i].at != cs[k].at
  {}

  lemma CoveredByHere(m: Memory, m': Memory, v: Vec, c: Cell)
    requires InSpace(c, v) && c.at in m && c.at in m' && m'[c.at].buffer == m[c.at].buffer
    ensures CoveredBy(m', Vec(c.at, c.misalign + c.off, v.len)) == CoveredBy(m, v)
  {}

  lemma CoveredNone(m: Memory)
    ensures Covered(m, []) == []
  {}

  /** The first pass of evbuffer_commit_space. */
  method CheckVecs(m: Memory, ghost cs: seq<Cell>, ghost fs: nat, first: Ptr, vecs: seq<Vec>) returns (ok: bool)
    requires Seg(m, cs, NULL) && Sound(cs) && fs <= |cs| && first == At(cs, fs, NULL)
    ensures ok <==> Offered(cs, fs, vecs)
  {
    hide Cell.Data, Cell.Ok, Sound, Seg;
    var chain := first;
    for i := 0 to |vecs|
      invariant fs + i <= |cs| && chain == At(cs, fs + i, NULL)
      invariant forall k :: 0 <= k < i ==> InSpace(cs[fs + k], vecs[k])
    {
      if fs + i < |cs| { ChunkAt(m, cs, fs + i); }
      if chain == NULL {
        return false;
      }
      if vecs[i].chain != chain || vecs[i].pos != m[chain].misalign + m[chain].off
        || vecs[i].len > m[chain].SpaceLen() {
        assert !InSpace(cs[fs + i], vecs[i]);
        return false;
      }
      chain := m[chain].next;
    }
    return true;
  }

  /** The last chunk, grown over len bytes of its space, wherever last_with_datap points. */
  lemma GrownLast(m: Memory, b: Evbuffer, g: Abs, len: nat, c: Cell, m': Memory, b': Evbuffer)
    requires b.Pointed(m, g) && |g.cells| > 0 && len <= g.cells[|g.cells| - 1].SpaceLen()
    requires c == g.cells[|g.cells| - 1].(off := g.cells[|g.cells| - 1].off + len)
    requires c.at in m && m' == m[c.at := m[c.at].(off := c.off)] && b' == b.(totalLen := b.totalLen + len)
    ensures var k := |g.cells| - 1; var g' := Abs(g.cells[k := c], g.mark);
      && b'.Pointed(m', g') && Kept(m, g.cells, m', g'.cells)
      && g'.Contents() == g.Contents() + CoveredBy(m, Vec(c.at, c.misalign + g.cells[k].off, len))
  {
    hide Bytes, BytesTo, Seg, Kept, Spare, Addrs, Cell.Data, CoveredBy, Marked;
    var k := |g.cells| - 1;
    ChunkAt(m, g.cells, k);
    GrownCell(g.cells[k], m, len, c);
    var d := CoveredBy(m, Vec(c.at, c.misalign + g.cells[k].off, len));
    DataLen(c);
    Extended(m, b, g, c, d, m', b', Abs(g.cells[k := c], g.mark));
  }

  /** Data in the last chunk, and last_with_datap moved on as far as there are chunks with data: is it there? */
  lemma AdvancedTo(cs: seq<Cell>, mark: nat, c: Cell, len: nat)
    requires Marked(cs, mark) && |cs| > 0 && c.off == cs[|cs| - 1].off + len
    ensures var cs' := cs[|cs| - 1 := c];
      Marked(cs', if len > 0 then RunEnd(cs', mark) else mark) <==> len == 0 || |cs| <= mark + 2
  {
    var cs', n := cs[|cs| - 1 := c], |cs|;
    assert cs'[n - 1] == c;
    if mark == n - 1 {
      RunEndIs(cs', mark, mark);
    } else if len > 0 && mark == n - 2 {
      RunEndIs(cs', mark, n - 1);
    } else if len > 0 {
      assert cs'[mark + 1] == cs[mark + 1];
      RunEndIs(cs', mark, mark);
    }
  }

  /** evbuffer_commit_space for a single iovec in the last chunk. */
  method CommitLast(m: Memory, b: Evbuffer, ghost g: Abs, v: Vec)
    returns (ok: bool, m': Memory, b': Evbuffer, ghost g': Abs)
    requires b.Pointed(m, g) && |g.cells| > 0 && InSpace(g.cells[|g.cells| - 1], v)
    ensures ok && b'.Pointed(m', g') && Kept(m, g.cells, m', g'.cells)
    ensures g'.Contents() == g.Contents() + CoveredBy(m, v)
    ensures Marked(g.cells, g.mark) ==> (b'.Valid(m', g') <==> v.len == 0 || |g.cells| <= g.mark + 2)
    ensures var k := |g.cells| - 1; g'.cells == g.cells[k := g.cells[k].(off := g.cells[k].off + v.len)]
  {
    hide Bytes, BytesTo, Seg, Kept, Spare, Addrs, Cell.Data, Cell.Ok, Sound, CoveredBy, Marked, RunEnd;
    ghost var k := |g.cells| - 1;
    ChunkAt(m, g.cells, k);
    m' := m[b.last := m[b.last].(off := m[b.last].off + v.len)];
    ghost var c := g.cells[k].(off := g.cells[k].off + v.len);
    g' := Abs(g.cells[k := c], g.mark);
    b' := b.(totalLen := b.totalLen + v.len);
    GrownLast(m, b, g, v.len, c, m', b');
    if Marked(g.cells, g.mark) { AdvancedTo(g.cells, g.mark, c, v.len); }
    assert v == Vec(c.at, c.misalign + g.cells[k].off, v.len);
    if v.len > 0 {
      ghost var mark;
      b', mark := AdvanceLastWithData(m', b', g'.cells, g.mark);
      g' := Abs(g'.cells, mark);
    }
    ValidIs(m', b', g');
    ok := true;
  }

  /** A single iovec in the last chunk, with an empty chunk between it and the last chunk with data. */
  ghost predicate Overshoots(g: Abs, vecs: seq<Vec>)
  {
    |vecs| == 1 && vecs[0].len > 0 && |g.cells| > g.mark + 2 && InSpace(g.cells[|g.cells| - 1], vecs[0])
  }

  /**
   evbuffer_commit_space.  What the iovecs cover is appended; a single iovec in the last chunk is taken
   wherever that chunk is, and leaves last_with_datap behind if it is further than one past last_with_data.
   If last_with_datap was behind already, a single iovec elsewhere puts its bytes in before those of later
   chunks.
   */
  method CommitSpace(m: Memory, b: Evbuffer, ghost g: Abs, vecs: seq<Vec>)
    returns (ok: bool, m': Memory, b': Evbuffer, ghost g': Abs)
    requires b.Pointed(m, g)
    ensures b'.Pointed(m', g') && Kept(m, g.cells, m', g'.cells)
    ensures b.Valid(m, g) ==> (b'.Valid(m', g') <==> !Overshoots(g, vecs))
    ensures ok <==> Accepted(g, vecs)
    ensures b.Valid(m, g) ==> g'.Contents() == if ok then g.Contents() + Covered(m, vecs) else g.Contents()
    ensures ok && |vecs| == 1 && |g.cells| > 0 ==>
      if InSpace(g.cells[|g.cells| - 1], vecs[0]) then g'.Contents() == g.Contents() + Covered(m, vecs)
      else FirstSpace(g) < |g.cells| && g'.Contents() == PutAfter(g.cells, FirstSpace(g) + 1, Covered(m, vecs))
    ensures !ok ==> m' == m && b' == b && g' == g
    ensures ok && |vecs| > 1 ==> g'.cells == Advanced(g.cells, FirstSpace(g), vecs)
    ensures |vecs| == 1 && |g.cells| > 0 && InSpace(g.cells[|g.cells| - 1], vecs[0]) ==>
      var k := |g.cells| - 1; g'.cells == g.cells[k := g.cells[k].(off := g.cells[k].off + vecs[0].len)]
  {
    hide Bytes, BytesTo, Seg, Kept, Spare, Addrs, Cell.Data, Cell.Ok, Sound, Marked, Abs.Contents, CoveredBy, Covered,
      Advanced, PutAfter;
    ok, m', b', g' := false, m, b, g;
    ghost var cs := g.cells;
    ValidIs(m, b, g);
    KeptAll(m, cs, NULL);
    CoveredNone(m);
    assert g.Contents() + [] == g.Contents();
    if |cs| > 0 {
      ChunkAt(m, cs, |cs| - 1);
      CellOk(cs, |cs| - 1);
      CellOk(cs, g.mark);
    }
    if |vecs| == 0 {
      ok := true;
      return;
    }
    if |vecs| == 1 && b.last != NULL && vecs[0].chain == b.last && vecs[0].pos == m[b.last].misalign + m[b.last].off {
      if vecs[0].len > m[b.last].SpaceLen() {
        if FirstSpace(g) < |cs| { OthersApart(cs, FirstSpace(g)); }
        return;
      }
      ok, m', b', g' := CommitLast(m, b, g, vecs[0]);
      OneCovered(m, vecs);
      return;
    }
    DerefAt(m, b, cs, g.mark);
    var firstchainp := b.lastWithDatap;
    if b.Deref(m, firstchainp) == NULL {
      return;
    }
    ChunkAt(m, cs, g.mark);
    if m[b.Deref(m, firstchainp)].SpaceLen() == 0 {
      firstchainp := NextOf(b.Deref(m, firstchainp));
    }
    DerefAt(m, b, cs, FirstSpace(g));
    ok := CheckVecs(m, cs, FirstSpace(g), b.Deref(m, firstchainp), vecs);
    if ok {
      m', b', g' := CommitAll(m, b, g, FirstSpace(g), firstchainp, vecs);
      ValidIs(m', b', g');
    }
  }

  /** A caller's write of data at the start of the space of chunk k. */
  method Scribble(m: Memory, b: Evbuffer, ghost g: Abs, ghost k: nat, v: Vec, data: seq<byte>)
    returns (m': Memory, ghost g': Abs)
    requires b.Pointed(m, g) && k < |g.cells| && InSpace(g.cells[k], v) && |data| <= v.len
    ensures b.Pointed(m', g') && Kept(m, g.cells, m', g'.cells) && g'.Contents() == g.Contents() && g'.mark == g.mark
    ensures |g'.cells| == |g.cells| && (forall i :: 0 <= i < |g.cells| && i != k ==> g'.cells[i] == g.cells[i])
    ensures g'.cells[k] == g.cells[k].(buffer := g'.cells[k].buffer) && |g'.cells[k].buffer| == |g.cells[k].buffer|
    ensures v.chain in m && m' == m[v.chain := m[v.chain].(buffer := g'.cells[k].buffer)]
    ensures CoveredBy(m', v.(len := |data|)) == data
  {
    hide Bytes, BytesTo, Seg, Kept, Spare, Addrs;
    ChunkAt(m, g.cells, k);
    m' := m[v.chain := m[v.chain].(buffer := WriteAt(m[v.chain].buffer, v.pos, data))];
    ghost var c := CellOf(v.chain, m'[v.chain]);
    g' := g.(cells := g.cells[k := c]);
    assert c.Data() == g.cells[k].Data();
    Rewritten(m, b, g.cells, k, c, m', b);
    BytesAt(g.cells, k);
  }

  /** In the buffer g, part has been written across the iovecs used, from chunk r on. */
  ghost predicate Filled(m: Memory, b: Evbuffer, g: Abs, r: nat, used: seq<Vec>, part: seq<byte>, m': Memory, g': Abs)
  {
    && b.Pointed(m', g') && Kept(m, g.cells, m', g'.cells) && g'.Contents() == g.Contents() && g'.mark == g.mark
    && SameSpaces(g.cells, g'.cells) && Offered(g'.cells, r, used) && Covered(m', used) == part
  }

  /** Writing to one more iovec. */
  method FillOne(ghost m: Memory, b: Evbuffer, ghost g: Abs, ghost r: nat, ghost used: seq<Vec>, ghost part: seq<byte>,
                 mm: Memory, ghost gg: Abs,
                 v: Vec, piece: seq<byte>)
    returns (m': Memory, ghost g': Abs)
    requires Filled(m, b, g, r, used, part, mm, gg) && r + |used| < |g.cells| && InSpace(g.cells[r + |used|], v)
    requires |piece| <= v.len
    ensures Filled(m, b, g, r, used + [v.(len := |piece|)], part + piece, m', g')
  {
    hide Bytes, BytesTo, Seg, Kept, Spare, Addrs, Cell.Data, Cell.Ok, Sound, Marked, Abs.Contents, CoveredBy, Covered;
    m', g' := Scribble(mm, b, gg, r + |used|, v, piece);
    KeptSteps(m, g.cells, mm, gg.cells, m', g'.cells);
    SpacesKept(gg.cells, g'.cells, r + |used|);
    CoveredAside(mm, m', gg.cells, r, used, r + |used|);
    CoveredNext(m', used, v.(len := |piece|));
  }

  /** Writing data across reserved iovecs, and cutting them down to what was written, as a readv does. */
  method Fill(m: Memory, b: Evbuffer, ghost g: Abs, ghost r: nat, vecs: seq<Vec>, data: seq<byte>)
    returns (used: seq<Vec>, m': Memory, ghost g': Abs)
    requires b.Pointed(m, g) && Reserved(g, r, vecs) && |data| <= TotalLen(vecs)
    ensures b.Pointed(m', g') && Kept(m, g.cells, m', g'.cells) && g'.Contents() == g.Contents() && g'.mark == g.mark
    ensures Reserved(g', r, used) && |used| <= |vecs| && SameSpaces(g.cells, g'.cells)
    ensures FirstSpace(g') == FirstSpace(g)
    ensures Covered(m', used) == data
  {
    hide Bytes, BytesTo, Seg, Kept, Spare, Addrs, Cell.Data, Cell.Ok, Sound, Marked, Abs.Contents, CoveredBy, Covered,
      TotalLen, Filled;
    used, m', g' := [], m, g;
    FilledNone(m, b, g, r);
    TotalNone();
    var done := 0;
    while done < |data|
      invariant 0 <= done <= |data| && |used| <= |vecs|
      invariant Filled(m, b, g, r, used, data[..done], m', g')
      invariant done < |data| ==> done == TotalLen(vecs[..|used|])
      decreases |vecs| - |used|
    {
      var i := |used|;
      TotalAll(vecs, i);
      var n := if vecs[i].len < |data| - done then vecs[i].len else |data| - done;
      m', g' := FillOne(m, b, g, r, used, data[..done], m', g', vecs[i], data[done..done + n]);
      TotalNext(vecs[..i], vecs[i]);
      assert vecs[..i + 1] == vecs[..i] + [vecs[i]];
      assert data[..done + n] == data[..done] + data[done..done + n];
      used := used + [vecs[i].(len := n)];
      done := done + n;
    }
    assert data[..done] == data;
    FilledIs(m, b, g, r, used, data, m', g');
  }

  lemma TotalAll(vecs: seq<Vec>, i: nat)
    requires i <= |vecs|
    ensures i == |vecs| ==> TotalLen(vecs[..i]) == TotalLen(vecs)
  {
    hide TotalLen;
    assert vecs[..|vecs|] == vecs;
  }

  lemma FilledNone(m: Memory, b: Evbuffer, g: Abs, r: nat)
    requires b.Pointed(m, g) && r <= |g.cells|
    ensures Filled(m, b, g, r, [], [], m, g)
  {
    hide Kept, Abs.Contents, Seg, Sound, Marked, Covered;
    KeptAll(m, g.cells, NULL);
    CoveredNone(m);
  }

  lemma FilledIs(m: Memory, b: Evbuffer, g: Abs, r: nat, used: seq<Vec>, part: seq<byte>, m': Memory, g': Abs)
    requires Filled(m, b, g, r, used, part, m', g')
    ensures b.Pointed(m', g') && Kept(m, g.cells, m', g'.cells) && g'.Contents() == g.Contents() && g'.mark == g.mark
    ensures SameSpaces(g.cells, g'.cells) && FirstSpace(g') == FirstSpace(g) && Offered(g'.cells, r, used)
    ensures Covered(m', used) == part
  {
    hide Kept, Abs.Contents, Seg, Sound, Marked, Covered;
  }

  ghost predicate SameSpaces(cs: seq<Cell>, cs': seq<Cell>)
  {
    |cs| == |cs'| && forall i :: 0 <= i < |cs| ==>
      cs'[i] == cs[i].(buffer := cs'[i].buffer) && |cs'[i].buffer| == |cs[i].buffer|
  }

  lemma SpacesKept(cs: seq<Cell>, cs': seq<Cell>, k: nat)
    requires k < |cs| == |cs'| && (forall i :: 0 <= i < |cs| && i != k ==> cs'[i] == cs[i])
    requires cs'[k] == cs[k].(buffer := cs'[k].buffer) && |cs'[k].buffer| == |cs[k].buffer|
    ensures SameSpaces(cs, cs')
  {}

  /** Writing to chunk k leaves alone what iovecs in earlier chunks cover. */
  lemma {:induction false} CoveredAside(m: Memory, m': Memory, cs: seq<Cell>, r: nat, vecs: seq<Vec>, k: nat)
    requires Offered(cs, r, vecs) && Sound(cs) && r + |vecs| <= k < |cs|
    requires forall p :: p in m && p != cs[k].at ==> p in m' && m'[p] == m[p]
    requires forall p :: p in m' && p != cs[k].at ==> p in m
    ensures Covered(m', vecs) == Covered(m, vecs)
  {
    if vecs != [] {
      var n := |vecs| - 1;
      CoveredAside(m, m', cs, r, vecs[..n], k);
      assert InSpace(cs[r + n], vecs[n]) && cs[r + n].at != cs[k].at;
    }
  }

  /** The same chunks with the same data, written differently: what is put in after k of them is the same. */
  lemma PutSame(cs: seq<Cell>, cs': seq<Cell>, k: nat, data: seq<byte>)
    requires SameSpaces(cs, cs') && Sound(cs) && Sound(cs') && Bytes(cs) == Bytes(cs') && k <= |cs|
    ensures PutAfter(cs', k, data) == PutAfter(cs, k, data)
  {
    hide Bytes, BytesTo, Sound, Cell.Ok, Cell.Data;
    LengthSame(cs, cs', k);
    BytesSplit(cs, k);
    BytesSplit(cs', k);
    var s, n := Bytes(cs), |Bytes(cs[..k])|;
    assert Bytes(cs[..k]) == s[..n] == Bytes(cs'[..k]) && Bytes(cs[k..]) == s[n..] == Bytes(cs'[k..]);
  }

  lemma {:induction false} LengthSame(cs: seq<Cell>, cs': seq<Cell>, k: nat)
    requires SameSpaces(cs, cs') && Sound(cs) && Sound(cs') && k <= |cs|
    ensures |Bytes(cs[..k])| == |Bytes(cs'[..k])|
  {
    hide Bytes, BytesTo, Sound, Cell.Ok, Cell.Data;
    if k == 0 {
      assert cs[..0] == cs'[..0];
    } else {
      LengthSame(cs, cs', k - 1);
      CellOk(cs, k - 1);
      CellOk(cs', k - 1);
      BytesPush(cs[..k - 1], cs[k - 1]);
      BytesPush(cs'[..k - 1], cs'[k - 1]);
      assert cs[..k] == cs[..k - 1] + [cs[k - 1]] && cs'[..k] == cs'[..k - 1] + [cs'[k - 1]];
    }
  }

  /** Writing to reserved space moves no data, and so keeps last_with_datap right. */
  lemma FilledMark(g: Abs, g': Abs)
    requires SameSpaces(g.cells, g'.cells) && g'.mark == g.mark
    ensures Marked(g'.cells, g'.mark) <==> Marked(g.cells, g.mark)
  {}

  /**
   evbuffer_reserve_space, a write of data into the space it gave, and evbuffer_commit_space of what was written.
   With several iovecs the data always ends up in the buffer; with a single one, exactly when the chunk
   reserved is one that evbuffer_commit_space looks at.  If last_with_datap is behind and there is enough space
   after it, that is where the data goes, before the bytes of later chunks.
   */
  method ReserveWriteCommit(m: Memory, b: Evbuffer, ghost g: Abs, size: nat, nVecs: int, data: seq<byte>)
    returns (ok: bool, m': Memory, b': Evbuffer, ghost g': Abs)
    requires b.Pointed(m, g) && (Marked(g.cells, g.mark) || (nVecs == 1 && Roomy(g, size)))
    requires 0 < |data| <= size <= SSIZE_MAX && nVecs >= 1
    ensures b'.Pointed(m', g') && Kept(m, g.cells, m', g'.cells)
    ensures b.Valid(m, g) ==> b'.Valid(m', g')
    ensures b.Valid(m, g) ==> g'.Contents() == if ok then g.Contents() + data else g.Contents()
    ensures b.Valid(m, g) && size <= CHAIN_MAX - MAX_TO_COPY_IN_EXPAND ==> (ok <==> nVecs >= 2 || !Skips(g, size))
    ensures ok && nVecs == 1 && b.Valid(m, g) && g.Tight() && g.Packed() ==> g'.Tight() && g'.Packed()
    ensures nVecs == 1 && Roomy(g, size) ==>
      ok && FirstSpace(g) < |g.cells| && g'.Contents() == PutAfter(g.cells, FirstSpace(g) + 1, data)
  {
    hide Bytes, BytesTo, Seg, Kept, Spare, Addrs, Cell.Data, Cell.Ok, Marked, Abs.Contents, CoveredBy, Covered,
      TotalLen, Skips, Abs.Tight, Abs.Packed, Abs.Close, Advanced, PutAfter;
    var n, vecs; ghost var r;
    ValidIs(m, b, g);
    n, vecs, m', b', g', r := ReserveSpace(m, b, g, size, nVecs);
    if n == -1 {
      ok := false;
      return;
    }
    ghost var m1, g1 := m', g';
    ValidIs(m', b', g');
    var used;
    used, m', g' := Fill(m', b', g', r, vecs, data);
    FilledMark(g1, g');
    KeptSteps(m, g.cells, m1, g1.cells, m', g'.cells);
    ghost var m2, g2, b2 := m', g', b';
    ValidIs(m', b', g');
    CoveredNone(m2);
    LastVec(g', r, used, b'.last);
    ok, m', b', g' := CommitSpace(m', b', g', used);
    KeptSteps(m, g.cells, m2, g2.cells, m', g'.cells);
    ValidIs(m', b', g');
    if nVecs == 1 && b.Valid(m, g) && g.Tight() && g.Packed() {
      CommittedClose(m2, g1, g2, r, used, data, g');
    }
    if nVecs == 1 && Roomy(g, size) {
      RoomyPut(g, g2, used, data, g');
    }
  }

  /** An iovec is in the space of one chunk. */
  lemma OneSpace(cs: seq<Cell>, i: nat, j: nat, v: Vec)
    requires Sound(cs) && i < |cs| && j < |cs| && InSpace(cs[i], v) && InSpace(cs[j], v)
    ensures i == j
  {}

  /** Where the data goes that is written to the first chunk with space. */
  lemma RoomyPut(g: Abs, g2: Abs, used: seq<Vec>, data: seq<byte>, g': Abs)
    requires SameSpaces(g.cells, g2.cells) && g2.mark == g.mark && Sound(g.cells) && Sound(g2.cells)
    requires g.Contents() == g2.Contents() && FirstSpace(g) < |g.cells| && |used| == 1
    requires InSpace(g2.cells[FirstSpace(g)], used[0])
    requires if InSpace(g2.cells[|g2.cells| - 1], used[0]) then g'.Contents() == g2.Contents() + data
      else g'.Contents() == PutAfter(g2.cells, FirstSpace(g) + 1, data)
    ensures g'.Contents() == PutAfter(g.cells, FirstSpace(g) + 1, data)
  {
    hide Bytes, BytesTo, Cell.Ok, Cell.Data, PutAfter;
    var k := FirstSpace(g);
    PutSame(g.cells, g2.cells, k + 1, data);
    if InSpace(g2.cells[|g2.cells| - 1], used[0]) {
      OneSpace(g2.cells, k, |g2.cells| - 1, used[0]);
      assert g2.cells[k + 1..] == [];
      PutAtEnd(g2.cells, k + 1, data);
    }
  }

  /** One iovec committed in the last chunk, of which there is some data, when no other chunk is empty. */
  lemma CommittedClose(m: Memory, g1: Abs, g: Abs, r: nat, used: seq<Vec>, data: seq<byte>, g': Abs)
    requires g1.Close() && SameSpaces(g1.cells, g.cells) && r == |g1.cells| - 1
    requires Reserved(g, r, used) && |used| <= 1 && Covered(m, used) == data && data != []
    requires |used| == 1 && |g.cells| > 0 && InSpace(g.cells[|g.cells| - 1], used[0]) ==>
      var k := |g.cells| - 1; g'.cells == g.cells[k := g.cells[k].(off := g.cells[k].off + used[0].len)]
    requires Marked(g'.cells, g'.mark)
    ensures g'.Tight() && g'.Packed()
  {
    hide Marked;
    assert Covered(m, []) == [];
    assert |used| == 1 && InSpace(g.cells[r], used[0]);
    assert used[..0] == [] && Covered(m, used) == Covered(m, []) + CoveredBy(m, used[0]);
    assert used[0].len > 0;
    CloseIs(g');
  }

  /** Which chunk a single reserved iovec is in, and whether evbuffer_commit_space will find it. */
  lemma LastVec(g: Abs, r: nat, used: seq<Vec>, last: Ptr)
    requires Reserved(g, r, used) && Sound(g.cells) && last == LastOf(g.cells)
    ensures !Overshoots(g, used)
    ensures |used| > 0 ==> (Accepted(g, used) <==> r == FirstSpace(g) || r == |g.cells| - 1)
  {
    hide Cell.Data;
    if |used| > 0 {
      assert InSpace(g.cells[r], used[0]);
    }
  }
}
