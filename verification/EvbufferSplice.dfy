/** Moving chunks from one evbuffer to another. */
module EvbufferSplice {
  import opened Basics
  import opened Chunks
  import opened Evbuffers

  /** Two buffers in one memory with no chunk in common. */
  ghost predicate Both(m: Memory, a: Evbuffer, ga: Abs, b: Evbuffer, gb: Abs)
  {
    a.Valid(m, ga) && b.Valid(m, gb) && Addrs(ga.cells) !! Addrs(gb.cells)
  }

  /** COPY_CHAIN */
  function CopyChain(src: Evbuffer): (dst: Evbuffer)
  {
    Evbuffer(src.first, src.last, src.lastWithDatap, src.totalLen)
  }

  /** APPEND_CHAIN */
  method AppendChain(m: Memory, dst: Evbuffer, ghost gd: Abs, src: Evbuffer, ghost gs: Abs)
    returns (m': Memory, dst': Evbuffer, ghost g': Abs)
    requires Both(m, dst, gd, src, gs) && |gd.cells| > 0 && |gs.cells| > 0 && gs.Contents() != []
    ensures dst'.totalLen == dst.totalLen + src.totalLen && m'.Keys == m.Keys
    ensures dst'.Valid(m', g') && g'.cells == gd.cells + gs.cells && g'.mark == |gd.cells| + gs.mark
    ensures g'.Contents() == gd.Contents() + gs.Contents() && Kept(m, gd.cells + gs.cells, m', g'.cells)
  {
    hide Bytes, BytesTo, Seg, Sound, Kept, Spare, Addrs, Cell.Data, Cell.Ok;
    SegRetail(m, gd.cells, NULL, src.first);
    m' := m[dst.last := m[dst.last].(next := src.first)];
    dst' := dst.(lastWithDatap := if src.lastWithDatap.First? then NextOf(dst.last) else src.lastWithDatap,
                 last := src.last, totalLen := dst.totalLen + src.totalLen);
    g' := Abs(gd.cells + gs.cells, |gd.cells| + gs.mark);
    Joined(m, gd.cells, gs.cells, m');
    MarkHasData(gs);
  }

  /** Linking the last chunk of a to the first of b. */
  lemma Joined(m: Memory, a: seq<Cell>, b: seq<Cell>, m': Memory)
    requires Seg(m, a, NULL) && Seg(m, b, NULL) && Sound(a) && Sound(b) && Addrs(a) !! Addrs(b) && |a| > 0
    requires LastOf(a) in m && m' == m[LastOf(a) := m[LastOf(a)].(next := At(b, 0, NULL))]
    ensures Seg(m', a + b, NULL) && Sound(a + b) && Bytes(a + b) == Bytes(a) + Bytes(b)
    ensures Kept(m, a + b, m', a + b)
  {
    hide Bytes, BytesTo, Cell.Data, Cell.Ok, Spare;
    SegRetail(m, a, NULL, At(b, 0, NULL));
    AddrIn(a, |a| - 1);
    SegSame(m, m', b, NULL);
    SegJoin(m', a, b, NULL);
    SoundJoin(a, b);
    BytesConcat(a, b);
    AddrsJoin(a, b);
    SegFind(m, a, NULL);
    SegFind(m, b, NULL);
  }

  /** PREPEND_CHAIN */
  method PrependChain(m: Memory, dst: Evbuffer, ghost gd: Abs, src: Evbuffer, ghost gs: Abs)
    returns (m': Memory, dst': Evbuffer, ghost g': Abs)
    requires Both(m, dst, gd, src, gs) && gd.Contents() != [] && |gs.cells| > 0
    ensures dst'.totalLen == dst.totalLen + src.totalLen && m'.Keys == m.Keys
    ensures dst'.Valid(m', g') && g'.cells == gs.cells + gd.cells && g'.mark == |gs.cells| + gd.mark
    ensures g'.Contents() == gs.Contents() + gd.Contents() && Kept(m, gs.cells + gd.cells, m', g'.cells)
  {
    hide Bytes, BytesTo, Seg, Sound, Kept, Spare, Addrs, Cell.Data, Cell.Ok;
    MarkHasData(gd);
    CellOk(gs.cells, 0);
    SegRetail(m, gs.cells, NULL, dst.first);
    m' := m[src.last := m[src.last].(next := dst.first)];
    Joined(m, gs.cells, gd.cells, m');
    g' := Abs(gs.cells + gd.cells, |gs.cells| + gd.mark);
    dst' := dst.(first := src.first, totalLen := dst.totalLen + src.totalLen);
    if gd.mark > 0 {
      ChunkAt(m', g'.cells, g'.mark - 1);
      ChunkAt(m', g'.cells, g'.mark);
    }
    if dst'.Deref(m', dst.lastWithDatap) == NULL {
      dst' := dst'.(lastWithDatap := src.lastWithDatap);
    } else if dst.lastWithDatap.First? {
      dst' := dst'.(lastWithDatap := NextOf(src.last));
    }
  }

  /** evbuffer_add_buffer, for two different buffers */
  method AddBuffer(m: Memory, out: Evbuffer, ghost go: Abs, inp: Evbuffer, ghost gi: Abs)
    returns (m': Memory, out': Evbuffer, ghost go': Abs, inp': Evbuffer, ghost gi': Abs)
    requires Both(m, out, go, inp, gi)
    ensures out'.totalLen == out.totalLen + inp.totalLen && inp'.totalLen == 0
    ensures Both(m', out', go', inp', gi')
    ensures go'.Contents() == go.Contents() + gi.Contents() && gi'.Contents() == []
    ensures Kept(m, go.cells + gi.cells, m', go'.cells + gi'.cells)
    ensures gi.Tight() && (go.Tight() || gi.Contents() != []) ==> go'.Tight() && gi'.Tight()
    ensures go.Tight() && go.Packed() && gi.Packed() ==> go'.Packed()
    ensures gi.Packed() ==> gi'.Packed()
  {
    hide Bytes, BytesTo, Seg, Sound, Kept, Spare, Addrs, Cell.Data, Cell.Ok;
    m', out', go', inp', gi' := m, out, go, inp, gi;
    if inp.totalLen == 0 {
      BothKept(m, go.cells, gi.cells);
      return;
    }
    BytesNone();
    assert |gi.cells| == 0 ==> gi.cells == [];
    if out.totalLen == 0 {
      m' := FreeAllChains(m, out.first, go.cells);
      out', go' := CopyChain(inp), gi;
      KeptApart(m, go.cells, m', [], gi.cells, NULL);
      Dropped(m, go.cells, m', gi.cells);
    } else {
      assert |go.cells| == 0 ==> go.cells == [];
      MarkHasData(go);
      m', out', go' := AppendChain(m, out, go, inp, gi);
      assert go'.cells + [] == go'.cells;
    }
    inp', gi' := EMPTY, Abs([], 0);
    EmptyValid(m');
    NoAddrs(go'.cells);
  }

  /** Freeing one list and keeping the other. */
  lemma Dropped(m: Memory, a: seq<Cell>, m': Memory, b: seq<Cell>)
    requires Kept(m, a, m', []) && Seg(m, b, NULL) && Addrs(a) !! Addrs(b)
    ensures Kept(m, a + b, m', b + []) && Kept(m, b + a, m', b + [])
  {
    SegFind(m, b, NULL);
    KeptWiden(m, a, m', [], b);
    assert [] + b == b && b + [] == b;
    AddrsJoin(a, b);
    AddrsJoin(b, a);
  }

  /** evbuffer_prepend_buffer, for two different buffers */
  method PrependBuffer(m: Memory, out: Evbuffer, ghost go: Abs, inp: Evbuffer, ghost gi: Abs)
    returns (m': Memory, out': Evbuffer, ghost go': Abs, inp': Evbuffer, ghost gi': Abs)
    requires Both(m, out, go, inp, gi)
    ensures out'.totalLen == out.totalLen + inp.totalLen && inp'.totalLen == 0
    ensures Both(m', out', go', inp', gi')
    ensures go'.Contents() == gi.Contents() + go.Contents() && gi'.Contents() == []
    ensures Kept(m, gi.cells + go.cells, m', go'.cells + gi'.cells)
    ensures go.Tight() && gi.Tight() ==> go'.Tight() && gi'.Tight()
    ensures go.Packed() && gi.Packed() && gi.Tight() ==> go'.Packed() && gi'.Packed()
  {
    hide Bytes, BytesTo, Seg, Sound, Kept, Spare, Addrs, Cell.Data, Cell.Ok;
    m', out', go', inp', gi' := m, out, go, inp, gi;
    BothKept(m, gi.cells, go.cells);
    if inp.totalLen == 0 {
      Swapped(m, gi.cells, go.cells);
      return;
    }
    BytesNone();
    assert |gi.cells| == 0 ==> gi.cells == [];
    MarkHasData(gi);
    if out.totalLen == 0 {
      m' := FreeAllChains(m, out.first, go.cells);
      out', go' := CopyChain(inp), gi;
      KeptApart(m, go.cells, m', [], gi.cells, NULL);
      Dropped(m, go.cells, m', gi.cells);
    } else {
      m', out', go' := PrependChain(m, out, go, inp, gi);
      assert go'.cells + [] == go'.cells;
    }
    inp', gi' := EMPTY, Abs([], 0);
    EmptyValid(m');
    NoAddrs(go'.cells);
  }

  lemma Swapped(m: Memory, a: seq<Cell>, b: seq<Cell>)
    requires Kept(m, a + b, m, a + b)
    ensures Kept(m, a + b, m, b + a)
  {
    AddrsJoin(a, b);
    AddrsJoin(b, a);
  }

  // ----- evbuffer_remove_buffer

  /** Ending a list after its first k chunks. */
  lemma Cut(m: Memory, cs: seq<Cell>, k: nat)
    requires Seg(m, cs, NULL) && Sound(cs) && 0 < k <= |cs|
    ensures cs[k - 1].at in m
    ensures var m' := m[cs[k - 1].at := m[cs[k - 1].at].(next := NULL)];
      Seg(m', cs[..k], NULL) && Seg(m', cs[k..], NULL) && Kept(m, cs, m', cs[..k] + cs[k..])
    ensures Sound(cs[..k]) && Sound(cs[k..]) && Addrs(cs[..k]) !! Addrs(cs[k..])
  {
    hide Cell.Ok;
    SegSplit(m, cs, NULL, k);
    SoundSplit(cs, k);
    SegRetail(m, cs[..k], At(cs, k, NULL), NULL);
    AddrIn(cs[..k], k - 1);
    var m' := m[cs[k - 1].at := m[cs[k - 1].at].(next := NULL)];
    SegSame(m, m', cs[k..], NULL);
    assert cs[..k] + cs[k..] == cs;
    SegFind(m, cs, NULL);
  }

  /**
   From chunk k on, with left bytes wanted: the first chunk that does not go whole, and how many bytes of it
   are wanted.
   */
  ghost function Whole(cs: seq<Cell>, k: nat, left: nat): (r: (nat, nat))
    requires k <= |cs|
    ensures k <= r.0 <= |cs|
    decreases |cs| - k
  {
    if k < |cs| && cs[k].off <= left then Whole(cs, k + 1, left - cs[k].off) else (k, left)
  }

  /** One chunk more goes whole. */
  lemma WholeStep(cs: seq<Cell>, k: nat, left: nat, mark: nat)
    requires Sound(cs) && Marked(cs, mark) && k <= mark < |cs| && cs[k].off <= left < |Bytes(cs[k..])|
    ensures k < mark && Whole(cs, k, left) == Whole(cs, k + 1, left - cs[k].off)
    ensures Spare(cs[..k + 1]) <==> Spare(cs[..k]) && cs[k].off == 0
    ensures |Bytes(cs[..k + 1])| == |Bytes(cs[..k])| + cs[k].off
    ensures |Bytes(cs[k..])| == cs[k].off + |Bytes(cs[k + 1..])|
  {
    hide Bytes, BytesTo, Cell.Data, Cell.Ok;
    PastMark(cs, mark);
    CellOk(cs, k);
    BytesFirst(cs[k..]);
    BytesPush(cs[..k], cs[k]);
    assert cs[k..][1..] == cs[k + 1..] && cs[..k + 1] == cs[..k] + [cs[k]];
    assert forall i :: 0 <= i < k ==> cs[..k + 1][i] == cs[..k][i];
  }

  /** How far evbuffer_remove_buffer walks: the first k chunks go whole, left bytes of the next one follow. */
  method WholeChunks(m: Memory, src: Evbuffer, ghost gs: Abs, datlen: nat)
    returns (src': Evbuffer, chain: Ptr, previous: Ptr, nread: nat, left: nat, ghost k: nat)
    requires src.Valid(m, gs) && datlen < src.totalLen
    ensures (k, left) == Whole(gs.cells, 0, datlen)
    ensures k <= gs.mark && k < |gs.cells| && chain == gs.cells[k].at && (k > 0 ==> previous == gs.cells[k - 1].at)
    ensures left < gs.cells[k].off && nread == |Bytes(gs.cells[..k])| && nread + left == datlen
    ensures (nread == 0 <==> Spare(gs.cells[..k]))
    ensures src' == src.(lastWithDatap := if k < gs.mark then src.lastWithDatap else First)
  {
    hide Bytes, BytesTo, Seg, Sound, Kept, Spare, Addrs, Cell.Data, Cell.Ok, Whole, Marked;
    src', chain, previous, nread, left, k := src, src.first, src.first, 0, datlen, 0;
    ghost var cs := gs.cells;
    MarkHasData(gs);
    SpareNothing(cs);
    assert gs.Contents() == Bytes(cs);
    ChunkAt(m, cs, 0);
    while m[chain].off <= left
      invariant k <= gs.mark && chain == cs[k].at && chain in m && m[chain].off == cs[k].off
      invariant k > 0 ==> previous == cs[k - 1].at
      invariant nread == |Bytes(cs[..k])| && nread + left == datlen && left < |Bytes(cs[k..])|
      invariant nread == 0 <==> Spare(cs[..k])
      invariant src' == src.(lastWithDatap := if k < gs.mark then src.lastWithDatap else First)
      invariant Whole(cs, 0, datlen) == Whole(cs, k, left)
      decreases |cs| - k
    {
      ChunkAt(m, cs, k);
      WholeStep(cs, k, left, gs.mark);
      ChunkAt(m, cs, k + 1);
      if k < gs.mark - 1 { Apart(cs, k, gs.mark - 1); }
      nread := nread + m[chain].off;
      left := left - m[chain].off;
      previous := chain;
      if src'.lastWithDatap == NextOf(chain) {
        src' := src'.(lastWithDatap := First);
      }
      chain := m[chain].next;
      k := k + 1;
    }
    WholeEnd(cs, k, left);
  }

  lemma SpareNothing(cs: seq<Cell>)
    ensures Spare(cs[..0]) && Bytes(cs[..0]) == [] && cs[0..] == cs
  {
    BytesNone();
    assert cs[..0] == [];
  }

  lemma WholeEnd(cs: seq<Cell>, k: nat, left: nat)
    requires k < |cs| && cs[k].off > left
    ensures Whole(cs, k, left) == (k, left)
  {}

  /** Linking the first k chunks of cs behind a, and ending a there. */
  lemma Moved(m: Memory, a: seq<Cell>, cs: seq<Cell>, k: nat, m': Memory)
    requires Seg(m, a, NULL) && Seg(m, cs, NULL) && Sound(a) && Sound(cs) && Addrs(a) !! Addrs(cs) && 0 < k <= |cs|
    requires (|a| > 0 ==> LastOf(a) in m) && LastOf(cs[..k]) in m
    requires m' == var linked := if |a| == 0 then m else m[LastOf(a) := m[LastOf(a)].(next := cs[0].at)];
      linked[LastOf(cs[..k]) := m[LastOf(cs[..k])].(next := NULL)]
    ensures Seg(m', a + cs[..k], NULL) && Sound(a + cs[..k]) && Bytes(a + cs[..k]) == Bytes(a) + Bytes(cs[..k])
    ensures Seg(m', cs[k..], NULL) && Sound(cs[k..]) && Addrs(a + cs[..k]) !! Addrs(cs[k..])
    ensures Kept(m, a + cs, m', (a + cs[..k]) + cs[k..])
  {
    hide Bytes, BytesTo, Cell.Data, Cell.Ok, Seg, Sound, Addrs, Kept;
    var moved, rest := cs[..k], cs[k..];
    Cut(m, cs, k);
    var m1 := m[cs[k - 1].at := m[cs[k - 1].at].(next := NULL)];
    SegFind(m, a, NULL);
    KeptFrom(m, a, cs, m1, moved + rest);
    assert moved + rest == cs;
    AddrsJoin(moved, rest);
    AddrsJoin(a, moved);
    if |a| == 0 {
      assert a + moved == moved && a == [];
      BytesNone();
      assert a + cs == cs && moved + rest == (a + moved) + rest;
    } else {
      KeptApart(m, cs, m1, moved + rest, a, NULL);
      AddrIn(a, |a| - 1);
      AddrIn(cs, k - 1);
      SegFind(m1, a, NULL);
      Joined(m1, a, moved, m');
      KeptApart(m1, a + moved, m', a + moved, rest, NULL);
      SegFind(m1, rest, NULL);
      KeptWiden(m1, a + moved, m', a + moved, rest);
      assert (a + moved) + rest == a + (moved + rest);
      KeptSteps(m, a + cs, m1, a + (moved + rest), m', (a + moved) + rest);
    }
  }

  /**
   Chunks linked behind those of g that are not spare; last_with_datap moves on as far as there are chunks
   with data.
   */
  ghost function Linked(g: Abs, moved: seq<Cell>): (g': Abs)
    requires g.mark <= |g.cells| && moved != []
    ensures g'.mark < |g'.cells|
  {
    var j := if g.mark < |g.cells| && g.cells[g.mark].off > 0 then g.mark + 1 else g.mark;
    var cs := g.cells[..j] + moved;
    Abs(cs, RunEnd(cs, g.mark))
  }

  /** If all the chunks that are linked have data, the buffer is Tight. */
  lemma LinkedTight(g: Abs, moved: seq<Cell>)
    requires Marked(g.cells, g.mark) && g.mark <= |g.cells| && moved != []
    requires forall i :: 0 <= i < |moved| ==> moved[i].off > 0
    ensures var g' := Linked(g, moved); Marked(g'.cells, g'.mark) && g'.Tight() && (g.Packed() ==> g'.Packed())
  {
    var j := if g.mark < |g.cells| && g.cells[g.mark].off > 0 then g.mark + 1 else g.mark;
    var cs := g.cells[..j] + moved;
    assert forall i :: j <= i < |cs| ==> cs[i] == moved[i - j];
    RunEndIs(cs, g.mark, |cs| - 1);
  }

  /** The chunks before chain leave src for the end of dst. */
  method MoveChunks(m: Memory, src: Evbuffer, ghost gs: Abs, dst: Evbuffer, ghost gd: Abs, chain: Ptr, previous: Ptr,
                    nread: nat, ghost k: nat)
    returns (m': Memory, src': Evbuffer, dst': Evbuffer, ghost g': Abs)
    requires Both(m, dst, gd, src.(lastWithDatap := SlotOf(gs.cells, gs.mark)), gs) && 0 < k < |gs.cells|
    requires chain == gs.cells[k].at && previous == gs.cells[k - 1].at && nread == |Bytes(gs.cells[..k])|
    ensures src' == src.(first := chain) && Seg(m', gs.cells[k..], NULL) && Sound(gs.cells[k..])
    ensures gd.mark <= |gd.cells| && dst'.Pointed(m', g') && g' == Linked(gd, gs.cells[..k])
    ensures g'.Contents() == gd.Contents() + Bytes(gs.cells[..k])
    ensures Addrs(g'.cells) !! Addrs(gs.cells[k..]) && Kept(m, gd.cells + gs.cells, m', g'.cells + gs.cells[k..])
    ensures dst'.totalLen == dst.totalLen + nread
  {
    hide Bytes, BytesTo, Seg, Sound, Kept, Spare, Addrs, Cell.Data, Cell.Ok, RunEnd;
    var s; ghost var j;
    m', dst', s, j := FreeTrailingEmptyChains(m, dst, gd);
    ghost var m1, kept, moved := m', gd.cells[..j], gs.cells[..k];
    KeptApart(m, gd.cells, m1, kept, gs.cells, NULL);
    KeptTo(m, gd.cells, gs.cells, m1, kept);
    if j > 0 { ChunkAt(m1, kept, j - 1); CellOk(kept, 0); }
    ChunkAt(m1, gs.cells, k - 1);
    if j > 0 { AddrIn(kept, j - 1); }
    AddrIn(gs.cells, k - 1);
    if dst'.first == NULL {
      dst' := dst'.(first := src.first);
    } else {
      m' := m'[s.p := m'[s.p].(next := src.first)];
    }
    dst' := dst'.(last := previous);
    m' := m'[previous := m'[previous].(next := NULL)];
    src' := src.(first := chain);
    Moved(m1, kept, gs.cells, k, m');
    KeptSteps(m, gd.cells + gs.cells, m1, kept + gs.cells, m', (kept + moved) + gs.cells[k..]);
    ghost var mark;
    dst', mark := AdvanceLastWithData(m', dst', kept + moved, gd.mark);
    dst' := dst'.(totalLen := dst'.totalLen + nread);
    g' := Abs(kept + moved, mark);
  }

  /** Cutting left bytes off chunk i, before which there are only spare chunks. */
  lemma CutAt(m: Memory, b: Evbuffer, cs: seq<Cell>, i: nat, left: nat, c: Cell, m': Memory, b': Evbuffer)
    requires b.Listed(m, cs) && i < |cs| && Spare(cs[..i]) && left < cs[i].off
    requires c == Cell(cs[i].at, cs[i].misalign + left, cs[i].off - left, cs[i].buffer)
    requires c.at in m && m' == m[c.at := Chain(m[c.at].next, c.misalign, c.off, c.buffer)]
    requires left <= b.totalLen && b' == b.(totalLen := b.totalLen - left)
    ensures b'.Listed(m', cs[i := c]) && Kept(m, cs, m', cs[i := c])
    ensures left <= |Bytes(cs)| && Bytes(cs[i := c]) == Bytes(cs)[left..]
  {
    hide Bytes, BytesTo, Seg, Sound, Kept, Addrs, Cell.Data, Spare;
    CellOk(cs, i);
    TrimmedData(cs[i], left, c);
    Rewritten(m, b, cs, i, c, m', b');
    BytesAt(cs, i);
    BytesSpare(cs[..i]);
    var d, r := cs[i].Data(), Bytes(cs[i + 1..]);
    assert [] + d + r == d + r && [] + c.Data() + r == c.Data() + r;
    assert (d + r)[left..] == d[left..] + r;
  }

  // ----- what becomes of the two buffers

  /** All the data is in one chunk, after at least one empty chunk. */
  ghost predicate DataAfterSpare(g: Abs)
  {
    0 < g.mark <= |g.cells| && Spare(g.cells[..g.mark])
  }

  /** The source of evbuffer_remove_buffer keeps its last_with_datap right. */
  ghost predicate SourceKept(gs: Abs, datlen: nat)
  {
    datlen == 0 || datlen >= |gs.Contents()| || !DataAfterSpare(gs)
  }

  /** The destination of evbuffer_remove_buffer: chunks with data are linked to it, and the rest is added. */
  ghost function RemoveFate(gd: Abs, gs: Abs, datlen: nat): (f: Fate)
    requires gd.mark < |gd.cells| || gd.mark == |gd.cells| == 0
  {
    if datlen == 0 || datlen >= |gs.Contents()| then Intact
    else
      var w := Whole(gs.cells, 0, datlen);
      AddFate(if Spare(gs.cells[..w.0]) then gd else Linked(gd, gs.cells[..w.0]), w.1)
  }

  /** Where last_with_datap of the source points: right, unless it was reset and the chunks before were not moved. */
  lemma SourceMark(gs: Abs, k: nat, left: nat, c: Cell)
    requires Marked(gs.cells, gs.mark) && k <= gs.mark && k < |gs.cells| && left < gs.cells[k].off
    requires c == Cell(gs.cells[k].at, gs.cells[k].misalign + left, gs.cells[k].off - left, gs.cells[k].buffer)
    requires Spare(gs.cells[..k])
    ensures var mark := if k < gs.mark then gs.mark else 0; var cs := gs.cells[k := c];
      && mark < |cs| && (Marked(cs, mark) <==> !DataAfterSpare(gs))
      && SlotOf(cs, mark) == if k < gs.mark then SlotOf(gs.cells, gs.mark) else First
  {
    var cs := gs.cells[k := c];
    assert forall i :: 0 <= i < |cs| && i != k ==> cs[i] == gs.cells[i];
    if k < gs.mark { assert gs.cells[..gs.mark][k] == gs.cells[k]; }
  }

  /** When chunks with data have been moved, the source has data in its first chunk. */
  lemma NotAfterSpare(gs: Abs, k: nat)
    requires k <= gs.mark && k < |gs.cells| && !Spare(gs.cells[..k])
    ensures !DataAfterSpare(gs)
  {
    if DataAfterSpare(gs) {
      forall i | 0 <= i < k ensures gs.cells[..k][i].off == 0 {
        assert gs.cells[..gs.mark][i] == gs.cells[..k][i];
      }
    }
  }

  /** The end of evbuffer_remove_buffer: left bytes of the chunk that stays are copied to dst and cut from src. */
  method TakeLeft(m: Memory, src: Evbuffer, ghost gs: Abs, ghost k: nat, ghost rest: seq<Cell>, ghost i: nat,
                  dst: Evbuffer,
                  ghost gd: Abs, chain: Ptr, left: nat)
    returns (aborted: bool, m': Memory, src': Evbuffer, ghost gs': Abs, dst': Evbuffer, ghost gd': Abs)
    requires Marked(gs.cells, gs.mark) && k <= gs.mark && k < |gs.cells|
    requires if Spare(gs.cells[..k]) then rest == gs.cells && i == k else rest == gs.cells[k..] && i == 0
    requires Seg(m, rest, NULL) && Sound(rest) && dst.Pointed(m, gd) && Addrs(gd.cells) !! Addrs(rest)
    requires chain == rest[i].at && left < rest[i].off && dst.totalLen + left <= SIZE_MAX
    requires var lastWithDatap := if k < gs.mark then SlotOf(gs.cells, gs.mark) else First;
      src == Evbuffer(At(rest, 0, NULL), LastOf(gs.cells), lastWithDatap, |Bytes(rest)|)
    ensures aborted <==> AddFate(gd, left) == Aborted
    ensures !aborted ==>
      && dst'.Pointed(m', gd') && src'.Pointed(m', gs') && Addrs(gd'.cells) !! Addrs(gs'.cells)
      && Kept(m, gd.cells + rest, m', gd'.cells + gs'.cells)
      && left <= |Bytes(rest)| && gd'.Contents() == gd.Contents() + Bytes(rest)[..left]
      && gs'.Contents() == Bytes(rest)[left..]
      && (dst'.Valid(m', gd') <==> AddFate(gd, left) == Intact)
      && (src'.Valid(m', gs') <==> !DataAfterSpare(gs))
    ensures dst.Valid(m, gd) && gd.Tight() ==> gd'.Tight() && (gd.Packed() ==> gd'.Packed())
    ensures gs.Packed() && !aborted ==> (gs.Tight() ==> gs'.Tight()) && gs'.Packed()
  {
    hide Bytes, BytesTo, Seg, Sound, Kept, Spare, Addrs, Cell.Data, Cell.Ok, Marked, AddFate, DataAfterSpare;
    aborted, m', src', gs', dst', gd' := false, m, src, gs, dst, gd;
    ChunkAt(m, rest, i);
    SpareNothing(rest);
    BytesHead(rest, i);
    SmallChunk(rest[i]);
    var ch := m[chain];
    DataHead(rest[i], ch, left);
    var data := ch.buffer[ch.misalign..ch.misalign + left];
    var r, m2;
    r, m2, dst', gd' := AddAnywhere(m, dst, gd, data);
    FateTightTo(m, dst, gd, left);
    if r == Broken {
      aborted := true;
      return;
    }
    KeptApart(m, gd.cells, m2, gd'.cells, rest, NULL);
    KeptTo(m, gd.cells, rest, m2, gd'.cells);
    ChunkAt(m2, rest, i);
    m' := m2[chain := m2[chain].(misalign := m2[chain].misalign + left, off := m2[chain].off - left)];
    ghost var c := CellOf(chain, m'[chain]);
    src' := src.(totalLen := src.totalLen - left);
    gs' := SourceAfter(gs, k, c);
    CutAt(m2, src, rest, i, left, c, m', src');
    SourceIs(gs, k, left, c);
    ValidIs(m', src', gs');
    KeptApart(m2, rest, m', gs'.cells, gd'.cells, NULL);
    SegFind(m2, gd'.cells, NULL);
    KeptFrom(m2, gd'.cells, rest, m', gs'.cells);
    PointedStill(m2, m', dst', gd');
    KeptSteps(m, gd.cells + rest, m2, gd'.cells + rest, m', gd'.cells + gs'.cells);
  }

  lemma PointedStill(m: Memory, m': Memory, b: Evbuffer, g: Abs)
    requires b.Pointed(m, g) && Seg(m', g.cells, NULL)
    ensures b.Pointed(m', g) && (b.Valid(m', g) <==> b.Valid(m, g))
  {
    hide Seg, Sound, Bytes, BytesTo;
  }

  lemma FateTightTo(m: Memory, b: Evbuffer, g: Abs, len: nat)
    ensures b.Valid(m, g) && g.Tight() ==> AddFate(g, len) == Intact
  {
    hide Seg, Sound, Bytes, BytesTo, AddFate;
    if b.Valid(m, g) && g.Tight() {
      FateTight(g, len);
    }
  }

  /** The first bytes of a list are those of its first chunk with data. */
  lemma BytesHead(cs: seq<Cell>, i: nat)
    requires Sound(cs) && i < |cs| && Spare(cs[..i])
    ensures forall left: nat :: left <= cs[i].off ==> left <= |Bytes(cs)| && Bytes(cs)[..left] == cs[i].Data()[..left]
    ensures |cs[i].Data()| == cs[i].off
  {
    hide Bytes, BytesTo, Cell.Data, Spare;
    CellOk(cs, i);
    BytesAt(cs, i);
    BytesSpare(cs[..i]);
    var d, r := cs[i].Data(), Bytes(cs[i + 1..]);
    assert [] + d + r == d + r;
    forall left: nat | left <= cs[i].off ensures Bytes(cs)[..left] == d[..left] {
      assert (d + r)[..left] == d[..left];
    }
  }

  /** The source once chunk k has become c, with the chunks before it, or without them if they have data. */
  ghost function SourceAfter(gs: Abs, k: nat, c: Cell): (g: Abs)
    requires k <= gs.mark && k < |gs.cells|
  {
    if Spare(gs.cells[..k]) then Abs(gs.cells[k := c], if k < gs.mark then gs.mark else 0)
    else Abs(gs.cells[k..][0 := c], gs.mark - k)
  }

  lemma SourceIs(gs: Abs, k: nat, left: nat, c: Cell)
    requires Marked(gs.cells, gs.mark) && k <= gs.mark && k < |gs.cells| && left < gs.cells[k].off
    requires c == Cell(gs.cells[k].at, gs.cells[k].misalign + left, gs.cells[k].off - left, gs.cells[k].buffer)
    ensures var g := SourceAfter(gs, k, c);
      && g.mark < |g.cells| && (Marked(g.cells, g.mark) <==> !DataAfterSpare(gs))
      && SlotOf(g.cells, g.mark) == (if k < gs.mark then SlotOf(gs.cells, gs.mark) else First)
      && LastOf(g.cells) == LastOf(gs.cells)
      && (gs.Packed() ==> (gs.Tight() ==> g.Tight()) && g.Packed())
  {
    hide DataAfterSpare;
    if Spare(gs.cells[..k]) {
      SourceMark(gs, k, left, c);
      assert k > 0 ==> gs.cells[..k][0] == gs.cells[0];
    } else {
      NotAfterSpare(gs, k);
      SuffixMark(gs, k, gs.cells[k..], c);
    }
  }

  /** In a Packed source every chunk before the last one with data has data. */
  lemma PackedMoved(gs: Abs, k: nat)
    requires k <= gs.mark && k < |gs.cells|
    ensures gs.Packed() ==>
      && (forall i :: 0 <= i < k ==> gs.cells[..k][i].off > 0)
      && (Spare(gs.cells[..k]) ==> k == 0)
      && !DataAfterSpare(gs)
  {
    assert k > 0 ==> gs.cells[..k][0] == gs.cells[0];
    assert gs.mark > 0 && gs.mark <= |gs.cells| ==> gs.cells[..gs.mark][0] == gs.cells[0];
  }

  /** Chunks of a Packed source linked behind any Valid buffer make it Tight. */
  lemma MovedTight(m: Memory, dst: Evbuffer, g: Abs, gd: Abs, gs: Abs, k: nat)
    requires Marked(gd.cells, gd.mark) && gd.mark <= |gd.cells| && 0 < k <= gs.mark && k < |gs.cells|
    requires dst.Pointed(m, g) && g == Linked(gd, gs.cells[..k])
    ensures gs.Packed() ==> dst.Valid(m, g) && g.Tight() && (gd.Packed() ==> g.Packed())
  {
    hide Seg, Sound, Bytes, BytesTo, Linked, Marked, Abs.Packed, DataAfterSpare;
    PackedMoved(gs, k);
    if gs.Packed() {
      LinkedTight(gd, gs.cells[..k]);
      ValidIs(m, dst, g);
    }
  }

  /** Spare chunks in front hold no bytes. */
  lemma SpareNone(to: seq<byte>, cs: seq<Cell>, k: nat)
    requires k <= |cs| && Spare(cs[..k])
    ensures to + Bytes(cs[..k]) == to && Bytes(cs[..k]) + Bytes(cs) == Bytes(cs)
  {
    hide Bytes, BytesTo;
    BytesSpare(cs[..k]);
  }

  /**
   evbuffer_remove_buffer, for two different buffers: the bytes move from the front of src to the end of
   dst.  Whether last_with_datap of the two is right afterwards can be told before.
   */
  method RemoveBuffer(m: Memory, src: Evbuffer, ghost gs: Abs, dst: Evbuffer, ghost gd: Abs, datlen: nat)
    returns (aborted: bool, n: nat, m': Memory, src': Evbuffer, ghost gs': Abs, dst': Evbuffer, ghost gd': Abs)
    requires Both(m, dst, gd, src, gs)
    requires dst.totalLen + src.totalLen <= SIZE_MAX
    ensures !aborted ==> n == (if datlen < src.totalLen then datlen else src.totalLen)
    ensures !aborted ==> dst'.totalLen == dst.totalLen + n && src'.totalLen + n == src.totalLen
    ensures (gd.mark < |gd.cells| || gd.mark == |gd.cells| == 0) && (aborted <==> RemoveFate(gd, gs, datlen) == Aborted)
    ensures !aborted ==>
      && dst'.Pointed(m', gd') && src'.Pointed(m', gs') && Addrs(gd'.cells) !! Addrs(gs'.cells)
      && Kept(m, gd.cells + gs.cells, m', gd'.cells + gs'.cells)
      && n <= |gs.Contents()| && gd'.Contents() == gd.Contents() + gs.Contents()[..n]
      && gs'.Contents() == gs.Contents()[n..]
      && (dst'.Valid(m', gd') <==> RemoveFate(gd, gs, datlen) == Intact)
      && (src'.Valid(m', gs') <==> SourceKept(gs, datlen))
    ensures gs.Packed() && gd.Tight() ==>
      && !aborted && Both(m', dst', gd', src', gs')
      && (gs.Tight() ==> gs'.Tight() && gd'.Tight()) && gs'.Packed() && (gd.Packed() ==> gd'.Packed())
  {
    hide Bytes, BytesTo, Seg, Sound, Kept, Spare, Addrs, Cell.Data, Cell.Ok, Marked, AddFate, Linked, Whole,
      DataAfterSpare;
    aborted, n, m', src', gs', dst', gd' := false, 0, m, src, gs, dst, gd;
    ValidIs(m, dst, gd);
    ValidIs(m, src, gs);
    BothKept(m, gd.cells, gs.cells);
    if datlen == 0 {
      return;
    }
    if datlen >= src.totalLen {
      m', dst', gd', src', gs' := AddBuffer(m, dst, gd, src, gs);
      ValidIs(m', dst', gd');
      ValidIs(m', src', gs');
      n := src.totalLen;
      return;
    }
    var chain, previous, nread, left; ghost var k;
    src', chain, previous, nread, left, k := WholeChunks(m, src, gs, datlen);
    ghost var rest, i := gs.cells, k;
    BytesSplit(gs.cells, k);
    PackedMoved(gs, k);
    if nread != 0 {
      rest, i := gs.cells[k..], 0;
      m', src', dst', gd' := MoveChunks(m, src', gs, dst, gd, chain, previous, nread, k);
      MovedTight(m', dst', gd', gd, gs, k);
    } else {
      SpareNone(gd.Contents(), gs.cells, k);
    }
    src' := src'.(totalLen := src.totalLen - nread);
    n := nread + left;
    ghost var m1, g1 := m', gd';
    FateTightTo(m', dst', gd', left);
    aborted, m', src', gs', dst', gd' := TakeLeft(m', src', gs, k, rest, i, dst', gd', chain, left);
    if aborted {
      return;
    }
    KeptSteps(m, gd.cells + gs.cells, m1, g1.cells + rest, m', gd'.cells + gs'.cells);
    SplitPast(gd.Contents(), Bytes(gs.cells[..k]), Bytes(rest), left);
  }

  /** Where the first bytes end, when they end within the second part. */
  lemma SplitPast(to: seq<byte>, whole: seq<byte>, rest: seq<byte>, left: nat)
    requires left <= |rest|
    ensures (to + whole) + rest[..left] == to + (whole + rest)[..|whole| + left]
    ensures (whole + rest)[|whole| + left..] == rest[left..]
  {
    assert (whole + rest)[..|whole| + left] == whole + rest[..left];
    assert (to + whole) + rest[..left] == to + (whole + rest[..left]);
  }
}
