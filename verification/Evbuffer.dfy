/**
 struct evbuffer: a byte queue over a list of chunks.  A ghost Abs value gives the list
 that first leads to and the index of the chunk that *last_with_datap is.
 */
module Evbuffers {
  import opened Basics
  import opened Chunks

  const MAX_AUTO_SIZE: nat := 4096
  const MAX_TO_REALIGN_IN_EXPAND: nat := 2048

  /** Where a next-field is: &buf->first, or &p->next. */
  datatype Slot = First | NextOf(p: Ptr)

  datatype Abs = Abs(cells: seq<Cell>, mark: nat) {
    ghost function Contents(): (s: seq<byte>) {
      Bytes(cells)
    }

    /** The last chunk is *last_with_datap, or there are no chunks. */
    ghost predicate Tight() {
      |cells| == 0 || mark == |cells| - 1
    }

    /** No chunk but the last one is empty. */
    ghost predicate Close() {
      forall i :: 0 <= i < |cells| - 1 ==> cells[i].off > 0
    }

    /** No empty chunk comes before the last one with data. */
    ghost predicate Packed() {
      forall i :: 0 <= i < mark && i < |cells| ==> cells[i].off > 0
    }
  }

  ghost function SlotOf(cs: seq<Cell>, j: nat): (s: Slot)
  {
    if 0 < j <= |cs| then NextOf(cs[j - 1].at) else First
  }

  ghost function LastOf(cs: seq<Cell>): (p: Ptr)
  {
    if |cs| == 0 then NULL else cs[|cs| - 1].at
  }

  /** Chunk `mark` is the last one with data, or the first one if there is no data. */
  ghost predicate Marked(cs: seq<Cell>, mark: nat)
  {
    && (mark == 0 || (mark < |cs| && cs[mark].off > 0))
    && (forall i :: mark < i < |cs| ==> cs[i].off == 0)
  }

  datatype Evbuffer = Evbuffer(first: Ptr, last: Ptr, lastWithDatap: Slot, totalLen: nat)
  {
    /** Everything but where last_with_datap points. */
    ghost predicate Listed(m: Memory, cs: seq<Cell>) {
      && first == At(cs, 0, NULL)
      && last == LastOf(cs)
      && Sound(cs)
      && Seg(m, cs, NULL)
      && totalLen == |Bytes(cs)|
    }

    /** last_with_datap leads to chunk `mark`, wherever the data is. */
    ghost predicate Pointed(m: Memory, g: Abs) {
      && Listed(m, g.cells)
      && (g.mark < |g.cells| || g.mark == |g.cells| == 0)
      && lastWithDatap == SlotOf(g.cells, g.mark)
    }

    ghost predicate Valid(m: Memory, g: Abs) {
      && Listed(m, g.cells)
      && Marked(g.cells, g.mark)
      && lastWithDatap == SlotOf(g.cells, g.mark)
    }

    /** *p */
    function Deref(m: Memory, p: Slot): (c: Ptr)
      requires p.NextOf? ==> p.p in m
    {
      match p
      case First => first
      case NextOf(q) => m[q].next
    }
  }

  /** evbuffer_new and ZERO_CHAIN */
  const EMPTY := Evbuffer(NULL, NULL, First, 0)

  lemma EmptyValid(m: Memory)
    ensures EMPTY.Valid(m, Abs([], 0)) && Bytes([]) == []
  {
    BytesNone();
  }

  lemma CloseIs(g: Abs)
    requires Marked(g.cells, g.mark)
    ensures g.Tight() && g.Packed() ==> g.Close()
    ensures g.Close() && |g.cells| > 0 && g.cells[|g.cells| - 1].off > 0 ==> g.Tight() && g.Packed()
  {}

  /** What a slot of a listed buffer leads to. */
  lemma DerefAt(m: Memory, b: Evbuffer, cs: seq<Cell>, j: nat)
    requires b.first == At(cs, 0, NULL) && Seg(m, cs, NULL) && j <= |cs|
    ensures SlotOf(cs, j).NextOf? ==> SlotOf(cs, j).p in m
    ensures b.Deref(m, SlotOf(cs, j)) == At(cs, j, NULL)
    ensures j < |cs| ==> Stored(m, cs, NULL, j)
  {
    if j > 0 {
      assert Stored(m, cs, NULL, j - 1);
    }
  }

  lemma CellOk(cs: seq<Cell>, j: nat)
    requires Sound(cs) && j < |cs|
    ensures cs[j].Ok() && cs[j].at != NULL && |cs[j].Data()| == cs[j].off
  {}

  /** buf with data written over it from pos on: memcpy(buf + pos, data, |data|) */
  function WriteAt(buf: seq<byte>, pos: nat, data: seq<byte>): (r: seq<byte>)
    requires pos + |data| <= |buf|
    ensures |r| == |buf|
  {
    buf[..pos] + data + buf[pos + |data|..]
  }

  lemma WriteAfter(buf: seq<byte>, misalign: nat, off: nat, data: seq<byte>)
    requires misalign + off + |data| <= |buf|
    ensures var w := WriteAt(buf, misalign + off, data);
      w[misalign..misalign + off + |data|] == buf[misalign..misalign + off] + data
  {}

  lemma WriteBefore(buf: seq<byte>, misalign: nat, off: nat, data: seq<byte>)
    requires misalign + off <= |buf| && |data| <= misalign
    ensures var w := WriteAt(buf, misalign - |data|, data);
      w[misalign - |data|..misalign + off] == data + buf[misalign..misalign + off]
  {}

  lemma ValidIs(m: Memory, b: Evbuffer, g: Abs)
    ensures b.Valid(m, g) <==> b.Pointed(m, g) && Marked(g.cells, g.mark)
  {
    hide Seg, Sound, Bytes, BytesTo;
  }

  /** The first empty chunk from index `from` on, or the end. */
  ghost function VictimAt(cs: seq<Cell>, from: nat): (j: nat)
    requires from <= |cs|
    ensures from <= j <= |cs|
    decreases |cs| - from
  {
    if from < |cs| && cs[from].off > 0 then VictimAt(cs, from + 1) else from
  }

  lemma {:induction false} VictimIs(cs: seq<Cell>, from: nat, j: nat)
    requires from <= j <= |cs| && (forall i :: from <= i < j ==> cs[i].off > 0) && (j < |cs| ==> cs[j].off == 0)
    ensures VictimAt(cs, from) == j
    decreases j - from
  {
    if from < j { VictimIs(cs, from + 1, j); }
  }

  /** In a Valid buffer the chunks from the first victim on are spare. */
  lemma VictimSpare(cs: seq<Cell>, mark: nat)
    requires Marked(cs, mark) && mark <= |cs|
    ensures VictimAt(cs, mark) == (if mark < |cs| && cs[mark].off > 0 then mark + 1 else mark)
    ensures Spare(cs[VictimAt(cs, mark)..])
  {
    VictimIs(cs, mark, if mark < |cs| && cs[mark].off > 0 then mark + 1 else mark);
  }

  /** Following next-fields from last_with_datap to the first chunk that may be thrown away. */
  method FirstVictim(m: Memory, b: Evbuffer, ghost g: Abs) returns (s: Slot, ghost j: nat)
    requires b.Pointed(m, g)
    ensures g.mark <= j <= |g.cells| && s == SlotOf(g.cells, j) && j == VictimAt(g.cells, g.mark)
    ensures Marked(g.cells, g.mark) ==>
      Spare(g.cells[j..]) && j == if g.mark < |g.cells| && g.cells[g.mark].off > 0 then g.mark + 1 else g.mark
  {
    hide Bytes, BytesTo, Cell.Data, Marked, VictimAt, Spare;
    s, j := b.lastWithDatap, g.mark;
    DerefAt(m, b, g.cells, j);
    while b.Deref(m, s) != NULL && m[b.Deref(m, s)].off != 0
      invariant g.mark <= j <= |g.cells|
      invariant s == SlotOf(g.cells, j)
      invariant s.NextOf? ==> s.p in m
      invariant b.Deref(m, s) == At(g.cells, j, NULL)
      invariant j < |g.cells| ==> Stored(m, g.cells, NULL, j) && g.cells[j].Ok()
      invariant forall i :: g.mark <= i < j ==> g.cells[i].off > 0
      decreases |g.cells| - j
    {
      s := NextOf(b.Deref(m, s));
      j := j + 1;
      DerefAt(m, b, g.cells, j);
    }
    VictimIs(g.cells, g.mark, j);
    if Marked(g.cells, g.mark) { VictimSpare(g.cells, g.mark); }
  }

  /** evbuffer_free_trailing_empty_chains; first and the returned slot lead nowhere new, last is the caller's to fix. */
  method FreeTrailingEmptyChains(m: Memory, b: Evbuffer, ghost g: Abs)
    returns (m': Memory, b': Evbuffer, s: Slot, ghost j: nat)
    requires b.Valid(m, g)
    ensures j <= |g.cells| && Spare(g.cells[j..]) && s == SlotOf(g.cells, j)
    ensures j == if g.mark < |g.cells| && g.cells[g.mark].off > 0 then g.mark + 1 else g.mark
    ensures b' == b.(first := b'.first) && m'.Keys <= m.Keys
    ensures b' == b.(first := At(g.cells[..j], 0, NULL))
    ensures Seg(m', g.cells[..j], NULL) && Sound(g.cells[..j]) && Kept(m, g.cells, m', g.cells[..j])
    ensures Bytes(g.cells[..j]) == g.Contents()
  {
    hide Bytes, BytesTo, Sound, Kept, Spare, Addrs, Cell.Data, Cell.Ok, Marked, Seg, VictimAt;
    ValidIs(m, b, g);
    s, j := FirstVictim(m, b, g);
    DerefAt(m, b, g.cells, j);
    SegSplit(m, g.cells, NULL, j);
    SoundSplit(g.cells, j);
    BytesTrim(g.cells, j);
    if j > 0 { AddrIn(g.cells[..j], j - 1); }
    m', b' := m, b;
    var victim := b.Deref(m, s);
    if victim != NULL {
      m' := FreeAllChains(m, victim, g.cells[j..]);
      if s.First? {
        b' := b'.(first := NULL);
      } else {
        m' := m'[s.p := m'[s.p].(next := NULL)];
      }
    } else if j < |g.cells| {
      CellOk(g.cells, j);
    }
    CutOff(m, g.cells, j, m');
  }

  /** Freeing the chunks from j on, and ending the list there. */
  lemma CutOff(m: Memory, cs: seq<Cell>, j: nat, m': Memory)
    requires Seg(m, cs, NULL) && Sound(cs) && j <= |cs|
    requires j > 0 ==> cs[j - 1].at in m && cs[j - 1].at !in Addrs(cs[j..])
    requires var free := if j == |cs| then m else m - Addrs(cs[j..]);
      m' == if j == |cs| || j == 0 then free else free[cs[j - 1].at := m[cs[j - 1].at].(next := NULL)]
    ensures Seg(m', cs[..j], NULL) && Kept(m, cs, m', cs[..j])
  {
    hide Cell.Ok;
    SoundSplit(cs, j);
    SegFind(m, cs, NULL);
    var cs' := cs[..j];
    forall i | 0 <= i < j ensures Stored(m', cs', NULL, i) {
      assert Stored(m, cs, NULL, i);
      AddrIn(cs[..j], i);
    }
    if j == |cs| { assert cs[..j] == cs; }
    if j > 0 { AddrIn(cs[..j], j - 1); }
  }

  /** The last chunk of the run of chunks with data after chunk i. */
  ghost function RunEnd(cs: seq<Cell>, i: nat): (e: nat)
    ensures i <= e && (i < |cs| ==> e < |cs|)
    decreases |cs| - i
  {
    if i + 1 < |cs| && cs[i + 1].off > 0 then RunEnd(cs, i + 1) else i
  }

  lemma {:induction false} RunEndIs(cs: seq<Cell>, i: nat, e: nat)
    requires i <= e && (i < e ==> e < |cs|) && (forall k :: i < k <= e ==> k < |cs| && cs[k].off > 0)
    requires e + 1 < |cs| ==> cs[e + 1].off == 0
    ensures RunEnd(cs, i) == e
    decreases e - i
  {
    if i < e { RunEndIs(cs, i + 1, e); }
  }

  /** advance_last_with_data */
  method AdvanceLastWithData(m: Memory, b: Evbuffer, ghost cs: seq<Cell>, ghost mark: nat)
    returns (b': Evbuffer, ghost mark': nat)
    requires Seg(m, cs, NULL) && Sound(cs) && b.first == At(cs, 0, NULL)
    requires (mark < |cs| || mark == |cs| == 0) && b.lastWithDatap == SlotOf(cs, mark)
    ensures b' == b.(lastWithDatap := b'.lastWithDatap)
    ensures b' == b.(lastWithDatap := SlotOf(cs, mark')) && mark <= mark' && (mark' < |cs| || mark' == |cs| == 0)
    ensures forall i :: mark < i <= mark' && i < |cs| ==> cs[i].off > 0
    ensures mark' + 1 < |cs| ==> cs[mark' + 1].off == 0
    ensures mark' == RunEnd(cs, mark)
  {
    hide Sound, Cell.Data, Cell.Ok, Seg, RunEnd;
    b', mark' := b, mark;
    DerefAt(m, b, cs, mark);
    if b.Deref(m, b.lastWithDatap) == NULL {
      if mark < |cs| { CellOk(cs, mark); }
      RunEndIs(cs, mark, mark);
      return;
    }
    ChunkAt(m, cs, mark);
    if mark + 1 < |cs| { ChunkAt(m, cs, mark + 1); }
    while m[b'.Deref(m, b'.lastWithDatap)].next != NULL && m[m[b'.Deref(m, b'.lastWithDatap)].next].off != 0
      invariant mark <= mark' < |cs| && b' == b.(lastWithDatap := SlotOf(cs, mark'))
      invariant b'.lastWithDatap.NextOf? ==> b'.lastWithDatap.p in m
      invariant b'.Deref(m, b'.lastWithDatap) == cs[mark'].at && cs[mark'].at in m
      invariant m[cs[mark'].at].next == At(cs, mark' + 1, NULL)
      invariant mark' + 1 < |cs| ==>
        cs[mark' + 1].at in m && cs[mark' + 1].at != NULL && m[cs[mark' + 1].at].off == cs[mark' + 1].off
      invariant forall i :: mark < i <= mark' ==> cs[i].off > 0
      decreases |cs| - mark'
    {
      b' := b'.(lastWithDatap := NextOf(b'.Deref(m, b'.lastWithDatap)));
      mark' := mark' + 1;
      DerefAt(m, b', cs, mark');
      ChunkAt(m, cs, mark');
      if mark' + 1 < |cs| { ChunkAt(m, cs, mark' + 1); CellOk(cs, mark' + 1); }
    }
    if mark' + 1 < |cs| { CellOk(cs, mark' + 1); }
    RunEndIs(cs, mark, mark');
  }

  /** Writing a new chunk into the slot before index j of a list whose chunks from j on are spare. */
  lemma Placed(m: Memory, b: Evbuffer, cs: seq<Cell>, j: nat, c: Cell, m': Memory, b': Evbuffer)
    requires b.Listed(m, cs) && j <= |cs| && Spare(cs[j..])
    requires c.Ok() && c.at !in Addrs(cs) && c.at in m && m[c.at] == Chain(NULL, c.misalign, c.off, c.buffer)
    requires j > 0 ==> cs[j - 1].at in m && cs[j - 1].at !in Addrs(cs[j..])
    requires var free := m - Addrs(cs[j..]);
      m' == if j == 0 then free else free[cs[j - 1].at := m[cs[j - 1].at].(next := c.at)]
    requires b'.first == (if j == 0 then c.at else b.first) && b'.last == c.at && b'.totalLen == b.totalLen + c.off
    ensures b'.Listed(m', cs[..j] + [c])
    ensures Bytes(cs[..j] + [c]) == Bytes(cs) + c.Data()
    ensures Kept(m, cs + [c], m', cs[..j] + [c])
  {
    hide Bytes, BytesTo, Cell.Data, Spare;
    SoundSplit(cs, j);
    SegSplit(m, cs, NULL, j);
    BytesTrim(cs, j);
    BytesPush(cs[..j], c);
    DataLen(c);
    AddrsOne(c);
    SoundOne(c);
    SoundJoin(cs[..j], [c]);
    AddrsJoin(cs[..j], [c]);
    AddrsJoin(cs, [c]);
    SegFind(m, cs, NULL);
    PlacedSeg(m, cs, j, c, m');
  }

  lemma DataLen(c: Cell)
    requires c.Ok()
    ensures |c.Data()| == c.off
  {}

  lemma PlacedSeg(m: Memory, cs: seq<Cell>, j: nat, c: Cell, m': Memory)
    requires Seg(m, cs, NULL) && Sound(cs) && j <= |cs|
    requires c.at !in Addrs(cs) && c.at in m && m[c.at] == Chain(NULL, c.misalign, c.off, c.buffer)
    requires j > 0 ==> cs[j - 1].at in m && cs[j - 1].at !in Addrs(cs[j..])
    requires var free := m - Addrs(cs[j..]);
      m' == if j == 0 then free else free[cs[j - 1].at := m[cs[j - 1].at].(next := c.at)]
    ensures Seg(m', cs[..j] + [c], NULL)
  {
    hide Cell.Ok;
    SoundSplit(cs, j);
    var cs' := cs[..j] + [c];
    forall i | 0 <= i < |cs'| ensures Stored(m', cs', NULL, i) {
      if i < j {
        assert Stored(m, cs, NULL, i);
        assert cs[..j][i] in cs[..j] && cs[..j][i].at in Addrs(cs[..j]);
      }
    }
  }

  /** evbuffer_chains_all_empty */
  method AllEmpty(m: Memory, chain: Ptr, ghost cs: seq<Cell>) returns (r: bool)
    requires Seg(m, cs, NULL) && Sound(cs) && chain == At(cs, 0, NULL)
    ensures r <==> Spare(cs)
  {
    hide Seg, Sound, Cell.Data;
    var p := chain;
    ghost var i := 0;
    if |cs| > 0 { ChunkAt(m, cs, 0); }
    while p != NULL
      invariant i <= |cs| && p == At(cs, i, NULL) && (i < |cs| ==> p in m && cs[i] == CellOf(p, m[p]) && p != NULL)
      invariant forall k :: 0 <= k < i ==> cs[k].off == 0
      decreases |cs| - i
    {
      if m[p].off != 0 {
        return false;
      }
      ChunkAt(m, cs, i);
      p := m[p].next;
      i := i + 1;
      if i < |cs| { ChunkAt(m, cs, i); }
    }
    r := true;
  }

  /**
   A chunk inserted: in place of the chunks from the first empty one on; last_with_datap moves only if there
   was none.
   */
  ghost function Inserted(g: Abs, c: Cell): (g': Abs)
    requires g.mark <= |g.cells|
  {
    var j := VictimAt(g.cells, g.mark);
    Abs(g.cells[..j] + [c], if c.off != 0 && j == |g.cells| then j else g.mark)
  }

  /** Where last_with_datap points after an insertion. */
  lemma InsertedMark(g: Abs, c: Cell)
    requires Marked(g.cells, g.mark) && g.mark <= |g.cells| && (c.off == 0 || g.Tight())
    ensures var g' := Inserted(g, c);
      && Marked(g'.cells, g'.mark) && |g'.cells| > 0 && g'.cells[|g'.cells| - 1] == c
      && (c.off > 0 || |g.cells| == 0 ==> g'.Tight())
      && (|g.cells| == 0 ==> g'.cells == [c])
      && (g.Packed() ==> g'.Packed())
      && g.mark <= g'.mark <= |g'.cells| - 1 <= g'.mark + 1 && g'.cells[..g.mark] == g.cells[..g.mark]
  {
    hide VictimAt, Spare, Inserted;
    VictimSpare(g.cells, g.mark);
    InsertedIs(g, c);
  }

  lemma InsertedIs(g: Abs, c: Cell)
    requires g.mark <= |g.cells|
    ensures var g', j := Inserted(g, c), VictimAt(g.cells, g.mark);
      && |g'.cells| == j + 1 && g'.cells[j] == c && g'.cells[..g.mark] == g.cells[..g.mark]
      && (j == 0 ==> g'.cells == [c])
      && (forall i :: 0 <= i < j ==> g'.cells[i] == g.cells[i])
      && g'.mark == if c.off != 0 && j == |g.cells| then j else g.mark
  {
    PushedAfter(g.cells, VictimAt(g.cells, g.mark), c, g.mark);
  }

  lemma PushedAfter(cs: seq<Cell>, j: nat, c: Cell, n: nat)
    requires n <= j <= |cs|
    ensures var w := cs[..j] + [c];
      && |w| == j + 1 && w[j] == c && w[..n] == cs[..n] && (j == 0 ==> w == [c])
      && forall i :: 0 <= i < j ==> w[i] == cs[i]
  {}

  lemma InsertedSlot(g: Abs, c: Cell)
    requires g.mark < |g.cells| || g.mark == |g.cells| == 0
    ensures var g', j := Inserted(g, c), VictimAt(g.cells, g.mark);
      && g'.mark < |g'.cells| && g'.cells[|g'.cells| - 1] == c
      && SlotOf(g'.cells, g'.mark) ==
        if c.off != 0 && j == |g.cells| then SlotOf(g.cells, j) else SlotOf(g.cells, g.mark)
  {}

  /**
   evbuffer_chain_insert.  It breaks off if a chunk with data comes after the first empty one: then
   last_with_datap was behind.
   */
  method ChainInsert(m: Memory, b: Evbuffer, ghost g: Abs, chain: Ptr, ghost c: Cell)
    returns (aborted: bool, m': Memory, b': Evbuffer, ghost g': Abs)
    requires b.Pointed(m, g) && c.at == chain && c.Ok() && chain !in Addrs(g.cells)
    requires chain in m && m[chain] == Chain(NULL, c.misalign, c.off, c.buffer)
    ensures aborted <==> !Spare(g.cells[VictimAt(g.cells, g.mark)..])
    ensures Marked(g.cells, g.mark) ==> !aborted
    ensures !aborted ==>
      && g' == Inserted(g, c) && b'.Pointed(m', g') && b'.last == chain
      && g'.Contents() == g.Contents() + c.Data() && Kept(m, g.cells + [c], m', g'.cells)
    ensures Marked(g.cells, g.mark) && (c.off == 0 || g.Tight()) ==>
      && b'.Valid(m', g') && |g'.cells| > 0 && g'.cells[|g'.cells| - 1] == c
      && (c.off > 0 || |g.cells| == 0 ==> g'.Tight())
      && (|g.cells| == 0 ==> g'.cells == [c])
      && (g.Packed() ==> g'.Packed())
      && g.mark <= g'.mark <= |g'.cells| - 1 <= g'.mark + 1 && g'.cells[..g.mark] == g.cells[..g.mark]
  {
    hide Bytes, BytesTo, Seg, Sound, Kept, Spare, Addrs, Cell.Data, Cell.Ok, Marked, Abs.Tight, Abs.Packed, VictimAt;
    var s; ghost var j;
    s, j := FirstVictim(m, b, g);
    DerefAt(m, b, g.cells, j);
    SegSplit(m, g.cells, NULL, j);
    SoundSplit(g.cells, j);
    if j > 0 { AddrIn(g.cells[..j], j - 1); }
    if j < |g.cells| { CellOk(g.cells, j); }
    aborted, m', b', g' := false, m, b, g;
    var victim := b.Deref(m, s);
    var empty := AllEmpty(m, victim, g.cells[j..]);
    if !empty {
      aborted := true;
      return;
    }
    m' := FreeAllChains(m, victim, g.cells[j..]);
    if s.First? {
      b' := b'.(first := chain);
    } else {
      m' := m'[s.p := m'[s.p].(next := chain)];
      if m[chain].off != 0 && victim == NULL {
        b' := b'.(lastWithDatap := s);
      }
    }
    g' := Inserted(g, c);
    b' := b'.(last := chain, totalLen := b.totalLen + m[chain].off);
    InsertedSlot(g, c);
    Placed(m, b, g.cells, j, c, m', b');
    if Marked(g.cells, g.mark) && (c.off == 0 || g.Tight()) {
      InsertedMark(g, c);
      ValidIs(m', b', g');
    }
  }

  /** Rewriting one chunk in place, next-field apart. */
  lemma Rewritten(m: Memory, b: Evbuffer, cs: seq<Cell>, k: nat, c: Cell, m': Memory, b': Evbuffer)
    requires b.Listed(m, cs) && k < |cs| && c.Ok() && c.at == cs[k].at && c.at in m
    requires m' == m[c.at := Chain(m[c.at].next, c.misalign, c.off, c.buffer)]
    requires b'.first == b.first && b'.last == b.last && b'.totalLen == b.totalLen + c.off - cs[k].off
    ensures b'.Listed(m', cs[k := c]) && Kept(m, cs, m', cs[k := c])
    ensures Bytes(cs[k := c]) == Bytes(cs[..k]) + c.Data() + Bytes(cs[k + 1..])
  {
    hide Bytes, BytesTo, Cell.Data, Cell.Ok, Spare;
    SegUpdate(m, cs, NULL, k, c);
    SoundUpdate(cs, k, c);
    BytesUpdate(cs, k, c);
    BytesAt(cs, k);
    DataLen(c);
    CellOk(cs, k);
    AddrIn(cs, k);
    SegFind(m, cs, NULL);
  }

  /** Appending to the bytes of the last chunk, wherever last_with_datap points. */
  lemma Extended(m: Memory, b: Evbuffer, g: Abs, c: Cell, data: seq<byte>, m': Memory, b': Evbuffer, g': Abs)
    requires b.Pointed(m, g) && |g.cells| > 0
    requires var k := |g.cells| - 1;
      c.Ok() && c.at == g.cells[k].at && c.Data() == g.cells[k].Data() + data && g' == Abs(g.cells[k := c], g.mark)
    requires c.at in m && m' == m[c.at := Chain(m[c.at].next, c.misalign, c.off, c.buffer)]
    requires b' == b.(totalLen := b.totalLen + |data|)
    ensures b'.Pointed(m', g') && Kept(m, g.cells, m', g'.cells)
    ensures g'.Contents() == g.Contents() + data && c.off == g.cells[|g.cells| - 1].off + |data|
    ensures b.Valid(m, g) && g.Tight() ==> b'.Valid(m', g') && g'.Tight()
  {
    hide Bytes, BytesTo, Cell.Data, Seg, Kept, Spare;
    var cs, k := g.cells, |g.cells| - 1;
    DataLen(c);
    CellOk(cs, k);
    Rewritten(m, b, cs, k, c, m', b');
    BytesLast(cs);
    BytesNone();
    assert cs[k + 1..] == [];
    assert Bytes(cs[..k]) + (cs[k].Data() + data) == Bytes(cs[..k]) + cs[k].Data() + data;
  }

  /** evbuffer_chain_should_realign */
  predicate ShouldRealign(ch: Chain, datlen: nat)
  {
    && |ch.buffer| - ch.off >= datlen
    && ch.off < |ch.buffer| / 2
    && ch.off <= MAX_TO_REALIGN_IN_EXPAND
  }

  /** evbuffer_chain_align: memmove the data to the start of the chunk */
  function Aligned(ch: Chain): (r: Chain)
    requires ch.misalign + ch.off <= |ch.buffer|
  {
    ch.(buffer := WriteAt(ch.buffer, 0, ch.buffer[ch.misalign..ch.misalign + ch.off]), misalign := 0)
  }

  /** Writing datlen more bytes at the end of a chunk that has room for them. */
  function Appended(ch: Chain, data: seq<byte>): (r: Chain)
    requires ch.misalign + ch.off + |data| <= |ch.buffer|
  {
    ch.(buffer := WriteAt(ch.buffer, ch.misalign + ch.off, data), off := ch.off + |data|)
  }

  ghost function CellOf(p: Ptr, ch: Chain): (c: Cell)
  {
    Cell(p, ch.misalign, ch.off, ch.buffer)
  }

  lemma AppendedCell(c: Cell, ch: Chain, data: seq<byte>)
    requires c.Ok() && c == CellOf(c.at, ch) && |data| <= ch.SpaceLen()
    ensures var r := CellOf(c.at, Appended(ch, data)); r.Ok() && r.Data() == c.Data() + data
    ensures |data| <= CHAIN_MAX - CHAIN_SIZE
  {
    WriteAfter(ch.buffer, ch.misalign, ch.off, data);
  }

  lemma AlignedCell(c: Cell, ch: Chain)
    requires c.Ok() && c == CellOf(c.at, ch)
    ensures var r := CellOf(c.at, Aligned(ch)); r.Ok() && r.Data() == c.Data()
  {
    WriteAfter(ch.buffer, 0, 0, ch.buffer[ch.misalign..ch.misalign + ch.off]);
  }

  /** What a chunk of a listed buffer looks like in memory. */
  lemma ChunkAt(m: Memory, cs: seq<Cell>, k: nat)
    requires Seg(m, cs, NULL) && Sound(cs) && k < |cs|
    ensures cs[k].at in m && cs[k] == CellOf(cs[k].at, m[cs[k].at]) && m[cs[k].at].next == At(cs, k + 1, NULL)
    ensures cs[k].Ok() && cs[k].at != NULL && |cs[k].Data()| == cs[k].off
  {
    assert Stored(m, cs, NULL, k);
  }

  /** Appending within the last chunk, written at the end of its data. */
  method AppendInLast(m: Memory, b: Evbuffer, ghost g: Abs, ch: Chain, data: seq<byte>)
    returns (m': Memory, b': Evbuffer, ghost g': Abs)
    requires b.Pointed(m, g) && |g.cells| > 0 && |data| <= ch.SpaceLen()
    requires var c := CellOf(b.last, ch); c.Ok() && c.Data() == g.cells[|g.cells| - 1].Data()
    requires b.last in m && ch.next == m[b.last].next
    ensures b'.Pointed(m', g') && Kept(m, g.cells, m', g'.cells) && g'.Contents() == g.Contents() + data
    ensures |g'.cells| == |g.cells| && g' == Abs(g.cells[|g.cells| - 1 := g'.cells[|g.cells| - 1]], g.mark)
    ensures g'.cells[|g.cells| - 1].off == g.cells[|g.cells| - 1].off + |data|
    ensures b.Valid(m, g) && g.Tight() ==> b'.Valid(m', g') && g'.Tight()
    ensures g.Packed() ==> g'.Packed()
    ensures b'.last == b.last && b'.totalLen == b.totalLen + |data|
  {
    hide Bytes, BytesTo, Seg, Sound, Kept, Spare, Addrs, Cell.Data, Cell.Ok, WriteAt, Marked;
    var chain := b.last;
    ghost var k := |g.cells| - 1;
    AppendedCell(CellOf(chain, ch), ch, data);
    m', b' := m[chain := Appended(ch, data)], b.(totalLen := b.totalLen + |data|);
    g' := g.(cells := g.cells[k := CellOf(chain, Appended(ch, data))]);
    Extended(m, b, g, g'.cells[k], data, m', b', g');
  }

  /** A new chunk filled with data goes to the end of the list. */
  method AppendInNew(m: Memory, b: Evbuffer, ghost g: Abs, tmp: Ptr, ghost c: Cell, data: seq<byte>)
    returns (aborted: bool, m': Memory, b': Evbuffer, ghost g': Abs)
    requires b.Pointed(m, g) && tmp in m && tmp !in Addrs(g.cells) && m[tmp] == Chain(NULL, 0, 0, c.buffer)
    requires c == Cell(tmp, 0, 0, c.buffer) && c.Ok() && |data| <= |c.buffer|
    requires data != [] || |g.cells| == 0
    ensures aborted <==> !Spare(g.cells[VictimAt(g.cells, g.mark)..])
    ensures !aborted ==>
      && b'.Pointed(m', g') && Kept(m, g.cells + [c], m', g'.cells) && g'.Contents() == g.Contents() + data
      && |g'.cells| > 0 && g'.cells[|g'.cells| - 1].off == |data| && g' == Inserted(g, g'.cells[|g'.cells| - 1])
    ensures Marked(g.cells, g.mark) && g.Tight() ==>
      !aborted && b'.Valid(m', g') && g'.Tight() && (g.Packed() ==> g'.Packed())
  {
    hide Bytes, BytesTo, Seg, Sound, Kept, Spare, Addrs, Cell.Data, Cell.Ok, WriteAt, Marked, VictimAt, Inserted;
    var ch := Appended(m[tmp], data);
    AppendedCell(c, m[tmp], data);
    SpareData(c);
    KeptFill(m, g.cells, NULL, c, ch);
    ghost var c' := CellOf(tmp, ch);
    FilledPointed(m, b, g, tmp, ch);
    aborted, m', b', g' := ChainInsert(m[tmp := ch], b, g, tmp, c');
    if !aborted {
      InsertedSlot(g, c');
      KeptSteps(m, g.cells + [c], m[tmp := ch], g.cells + [c'], m', g'.cells);
    }
    assert [] + data == data;
  }

  lemma FilledPointed(m: Memory, b: Evbuffer, g: Abs, tmp: Ptr, ch: Chain)
    requires b.Pointed(m, g) && tmp !in Addrs(g.cells)
    ensures b.Pointed(m[tmp := ch], g)
  {
    hide Sound, Bytes, BytesTo, Cell.Ok;
    SegSame(m, m[tmp := ch], g.cells, NULL);
  }

  // ----- what becomes of last_with_datap

  /**
   After an operation last_with_datap is right, or it is left behind; or an assertion has broken the
   operation off.
   */
  datatype Fate = Intact | Behind | Aborted

  /** Data of this length goes into the chunk, realigned or not. */
  ghost predicate FitsIn(c: Cell, len: nat)
  {
    c.SpaceLen() >= len || ShouldRealign(Chain(NULL, c.misalign, c.off, c.buffer), len)
  }

  /** evbuffer_add, for len bytes that it does not refuse, on a buffer with last_with_datap anywhere. */
  ghost function AddFate(g: Abs, len: nat): (f: Fate)
    requires g.mark < |g.cells| || g.mark == |g.cells| == 0
  {
    var n := |g.cells|;
    if n == 0 then Intact
    else if len == 0 then (if Marked(g.cells, g.mark) then Intact else Behind)
    else if FitsIn(g.cells[n - 1], len) then (if g.mark == n - 1 then Intact else Behind)
    else
      var j := VictimAt(g.cells, g.mark);
      if g.cells[n - 1].SpaceLen() > 0 then (if j >= n - 1 then Intact else Aborted)
      else if j == n then Intact
      else if !Spare(g.cells[j..]) then Aborted
      else if j == g.mark then Intact else Behind
  }

  /** Filling the last chunk. */
  lemma FateInLast(g: Abs, g': Abs, len: nat)
    requires g.mark < |g.cells| && |g'.cells| == |g.cells| && FitsIn(g.cells[|g.cells| - 1], len)
    requires g' == Abs(g.cells[|g.cells| - 1 := g'.cells[|g.cells| - 1]], g.mark)
    requires g'.cells[|g.cells| - 1].off == g.cells[|g.cells| - 1].off + len
    ensures Marked(g'.cells, g'.mark) <==> AddFate(g, len) == Intact
    ensures AddFate(g, len) != Aborted
  {
    var n := |g.cells|;
    assert forall i :: 0 <= i < n - 1 ==> g'.cells[i] == g.cells[i];
  }

  /** Inserting a chunk with data when the last chunk has no room. */
  lemma FateReplaced(g: Abs, len: nat, c: Cell)
    requires g.mark < |g.cells| && c.off > 0 && len > 0 && !FitsIn(g.cells[|g.cells| - 1], len)
    requires g.cells[|g.cells| - 1].SpaceLen() == 0
    ensures !Spare(g.cells[VictimAt(g.cells, g.mark)..]) <==> AddFate(g, len) == Aborted
    ensures AddFate(g, len) != Aborted ==>
      (Marked(Inserted(g, c).cells, Inserted(g, c).mark) <==> AddFate(g, len) == Intact)
  {
    hide FitsIn, VictimAt;
    var j, g' := VictimAt(g.cells, g.mark), Inserted(g, c);
    assert g'.cells[j] == c && |g'.cells| == j + 1;
    if j == |g.cells| { assert g.cells[j..] == []; }
  }

  /** Inserting a chunk with data after one that has just been filled. */
  lemma FateFilled(g: Abs, g1: Abs, len: nat, c: Cell)
    requires g.mark < |g.cells| && c.off > 0 && len > 0 && !FitsIn(g.cells[|g.cells| - 1], len)
    requires g.cells[|g.cells| - 1].SpaceLen() > 0
    requires |g1.cells| == |g.cells| && g1 == Abs(g.cells[|g.cells| - 1 := g1.cells[|g.cells| - 1]], g.mark)
    requires g1.cells[|g.cells| - 1].off > 0
    ensures !Spare(g1.cells[VictimAt(g1.cells, g1.mark)..]) <==> AddFate(g, len) == Aborted
    ensures AddFate(g, len) != Aborted ==>
      AddFate(g, len) == Intact && Marked(Inserted(g1, c).cells, Inserted(g1, c).mark)
  {
    hide FitsIn, VictimAt;
    var n, j := |g.cells|, VictimAt(g.cells, g.mark);
    VictimRun(g.cells, g.mark);
    if j >= n - 1 {
      VictimIs(g1.cells, g.mark, n);
      assert g1.cells[n..] == [];
    } else {
      assert g1.cells[j] == g.cells[j];
      VictimIs(g1.cells, g.mark, j);
      assert g1.cells[j..][n - 1 - j] == g1.cells[n - 1];
    }
  }

  /** Inserting a chunk with data: after one that has been filled, or in place of spare ones. */
  lemma FateInNew(g: Abs, g1: Abs, len: nat, c: Cell)
    requires g.mark < |g.cells| && c.off > 0 && len > 0 && !FitsIn(g.cells[|g.cells| - 1], len)
    requires g.cells[|g.cells| - 1].SpaceLen() >= 0
    requires g.cells[|g.cells| - 1].SpaceLen() == 0 ==> g1 == g
    requires g.cells[|g.cells| - 1].SpaceLen() > 0 ==>
      && |g1.cells| == |g.cells| && g1 == Abs(g.cells[|g.cells| - 1 := g1.cells[|g.cells| - 1]], g.mark)
      && g1.cells[|g.cells| - 1].off > 0
    ensures !Spare(g1.cells[VictimAt(g1.cells, g1.mark)..]) <==> AddFate(g, len) == Aborted
    ensures AddFate(g, len) != Aborted ==>
      (Marked(Inserted(g1, c).cells, Inserted(g1, c).mark) <==> AddFate(g, len) == Intact)
  {
    hide FitsIn, VictimAt, AddFate, Inserted, Marked, Spare;
    if g.cells[|g.cells| - 1].SpaceLen() == 0 { FateReplaced(g, len, c); } else { FateFilled(g, g1, len, c); }
  }

  lemma {:induction false} VictimRun(cs: seq<Cell>, from: nat)
    requires from <= |cs|
    ensures forall i :: from <= i < VictimAt(cs, from) ==> cs[i].off > 0
    ensures VictimAt(cs, from) < |cs| ==> cs[VictimAt(cs, from)].off == 0
    decreases |cs| - from
  {
    if from < |cs| && cs[from].off > 0 { VictimRun(cs, from + 1); }
  }

  /** On a Tight buffer evbuffer_add always succeeds. */
  lemma FateTight(g: Abs, len: nat)
    requires Marked(g.cells, g.mark) && g.Tight() && (g.mark < |g.cells| || g.mark == |g.cells| == 0)
    ensures AddFate(g, len) == Intact
  {
    VictimSpare(g.cells, g.mark);
  }

  /** Only the last chunk is different. */
  ghost predicate SameButLast(g: Abs, g': Abs)
  {
    |g'.cells| == |g.cells| > 0 && g' == Abs(g.cells[|g.cells| - 1 := g'.cells[|g.cells| - 1]], g.mark)
  }

  datatype Added = Refused | Done | Broken

  /** The part of evbuffer_add that has a last chunk to start from. */
  method AddToLast(m: Memory, b: Evbuffer, ghost g: Abs, data: seq<byte>)
    returns (r: Added, m': Memory, b': Evbuffer, ghost g': Abs)
    requires b.Pointed(m, g) && |g.cells| > 0
    ensures r == Refused <==> |data| > CHAIN_MAX - CHAIN_SIZE
    ensures r == Refused ==> m' == m && b' == b && g' == g
    ensures r == Broken ==> AddFate(g, |data|) == Aborted
    ensures r == Done ==>
      && b'.Pointed(m', g') && Kept(m, g.cells, m', g'.cells) && g'.Contents() == g.Contents() + data
      && AddFate(g, |data|) == (if Marked(g'.cells, g'.mark) then Intact else Behind)
      && (FitsIn(g.cells[|g.cells| - 1], |data|) ==> SameButLast(g, g'))
    ensures r == Done && b.Valid(m, g) && g.Tight() ==> g'.Tight() && (g.Packed() ==> g'.Packed())
  {
    hide Bytes, BytesTo, Seg, Sound, Kept, Spare, Addrs, Cell.Data, Marked, WriteAt, AddFate, VictimAt, Inserted;
    ghost var k := |g.cells| - 1;
    ChunkAt(m, g.cells, k);
    KeptAll(m, g.cells, NULL);
    r, m', b', g' := Done, m, b, g;
    var ch := m[b.last];
    var remain := ch.SpaceLen();
    if remain >= |data| {
      m', b', g' := AppendInLast(m, b, g, ch, data);
      FateInLast(g, g', |data|);
      return;
    }
    if ShouldRealign(ch, |data|) {
      AlignedCell(g.cells[k], ch);
      m', b', g' := AppendInLast(m, b, g, Aligned(ch), data);
      FateInLast(g, g', |data|);
      return;
    }
    var toAlloc := |ch.buffer|;
    if toAlloc <= MAX_AUTO_SIZE / 2 {
      toAlloc := toAlloc * 2;
    }
    if |data| > toAlloc {
      toAlloc := |data|;
    }
    var m1, tmp; ghost var c;
    m1, tmp, c := ChainNew(m, toAlloc);
    if tmp == NULL {
      r := Refused;
      return;
    }
    KeptNew(m, g.cells, NULL, c, m1[tmp]);
    FilledPointed(m, b, g, tmp, m1[tmp]);
    var m2, b2; ghost var g2;
    m2, b2, g2 := m1, b, g;
    KeptAll(m1, g.cells, NULL);
    if remain != 0 {
      m2, b2, g2 := AppendInLast(m1, b, g, ch, data[..remain]);
    }
    KeptBeside(m1, g.cells, m2, g2.cells, c);
    var aborted;
    aborted, m', b', g' := AppendInNew(m2, b2, g2, tmp, c, data[remain..]);
    if aborted {
      FateInNew(g, g2, |data|, Cell(tmp, 0, 1, c.buffer));
      r := Broken;
      return;
    }
    FateInNew(g, g2, |data|, g'.cells[|g'.cells| - 1]);
    KeptSteps(m, g.cells, m1, g.cells + [c], m2, g2.cells + [c]);
    KeptSteps(m, g.cells, m2, g2.cells + [c], m', g'.cells);
    AppendedParts(g.Contents(), data, remain);
  }

  lemma AppendedParts(s: seq<byte>, data: seq<byte>, n: nat)
    requires n <= |data|
    ensures s + data[..n] + data[n..] == s + data
    ensures n == 0 ==> s + data[n..] == s + data
  {
    assert data == data[..n] + data[n..];
    assert s + data[..n] + data[n..] == s + (data[..n] + data[n..]);
  }

  /**
   evbuffer_add, whatever last_with_datap points to.  The bytes are appended; last_with_datap is right
   afterwards exactly as AddFate says.
   */
  method AddAnywhere(m: Memory, b: Evbuffer, ghost g: Abs, data: seq<byte>)
    returns (r: Added, m': Memory, b': Evbuffer, ghost g': Abs)
    requires b.Pointed(m, g)
    ensures r == Refused <==> |data| > SIZE_MAX - b.totalLen || |data| > CHAIN_MAX - CHAIN_SIZE
    ensures r == Refused ==> m' == m && b' == b && g' == g
    ensures r == Broken <==> r != Refused && AddFate(g, |data|) == Aborted
    ensures r == Done ==>
      && b'.Pointed(m', g') && Kept(m, g.cells, m', g'.cells) && g'.Contents() == g.Contents() + data
      && (b'.Valid(m', g') <==> AddFate(g, |data|) == Intact)
      && (|g.cells| > 0 && FitsIn(g.cells[|g.cells| - 1], |data|) ==> SameButLast(g, g'))
    ensures r == Done && |g.cells| > 0 ==>
      var c := g.cells[|g.cells| - 1];
      (|c.buffer| - c.misalign - c.off >= |data|
       || (|c.buffer| - c.off >= |data| && c.off < |c.buffer| / 2 && c.off <= 2048)) ==> |g'.cells| == |g.cells|
    ensures r == Done && b.Valid(m, g) && g.Tight() ==> g'.Tight() && (g.Packed() ==> g'.Packed())
  {
    hide Bytes, BytesTo, Seg, Sound, Kept, Spare, Addrs, Cell.Data, Cell.Ok, Marked, AddFate, VictimAt, Inserted,
      FitsIn, SameButLast;
    r, m', b', g' := Refused, m, b, g;
    KeptAll(m, g.cells, NULL);
    if |g.cells| > 0 {
      CellOk(g.cells, |g.cells| - 1);
    }
    if |data| > SIZE_MAX - b.totalLen {
      return;
    }
    if b.last == NULL {
      var chain; ghost var c;
      m', chain, c := ChainNew(m, |data|);
      if chain == NULL {
        return;
      }
      KeptNew(m, g.cells, NULL, c, m'[chain]);
      FilledPointed(m, b, g, chain, m'[chain]);
      ghost var m1 := m';
      var aborted;
      EmptyMarked(g);
      aborted, m', b', g' := ChainInsert(m', b, g, chain, c);
      KeptSteps(m, g.cells, m1, g.cells + [c], m', g'.cells);
      SpareData(c);
    }
    assert g'.Contents() == g.Contents();
    ghost var m1, b1, g1 := m', b', g';
    r, m', b', g' := AddToLast(m', b', g', data);
    if r == Done {
      KeptSteps(m, g.cells, m1, g1.cells, m', g'.cells);
      ValidIs(m', b', g');
    }
    FateFirst(g, g1, |data|);
    if r == Done && |g.cells| > 0 { FitsIs(g, g', |data|); }
  }

  /** Data for which there is room behind, or would be if the chunk were moved to its start, takes no new chunk. */
  lemma FitsIs(g: Abs, g': Abs, len: nat)
    requires |g.cells| > 0 && (FitsIn(g.cells[|g.cells| - 1], len) ==> SameButLast(g, g'))
    ensures var c := g.cells[|g.cells| - 1];
      (|c.buffer| - c.misalign - c.off >= len
       || (|c.buffer| - c.off >= len && c.off < |c.buffer| / 2 && c.off <= 2048)) ==> |g'.cells| == |g.cells|
  {}

  lemma EmptyMarked(g: Abs)
    requires g.mark == |g.cells| == 0
    ensures Marked(g.cells, g.mark) && g.Tight() && g.Packed()
  {}

  lemma FateFirst(g: Abs, g1: Abs, len: nat)
    requires if |g.cells| == 0 then Marked(g1.cells, g1.mark) && g1.Tight() && |g1.cells| > 0 else g1 == g
    requires g.mark < |g.cells| || g.mark == |g.cells| == 0
    ensures AddFate(g1, len) == AddFate(g, len)
  {
    if |g.cells| == 0 { FateTight(g1, len); }
  }

  /** evbuffer_add on a Tight buffer */
  method Add(m: Memory, b: Evbuffer, ghost g: Abs, data: seq<byte>)
    returns (ok: bool, m': Memory, b': Evbuffer, ghost g': Abs)
    requires b.Valid(m, g) && g.Tight()
    ensures b'.Valid(m', g') && g'.Tight() && Kept(m, g.cells, m', g'.cells)
    ensures ok <==> |data| <= SIZE_MAX - b.totalLen && |data| <= CHAIN_MAX - CHAIN_SIZE
    ensures g'.Contents() == if ok then g.Contents() + data else g.Contents()
    ensures g.Packed() ==> g'.Packed()
    ensures !ok ==> m' == m && b' == b && g' == g
  {
    hide Bytes, BytesTo, Seg, Sound, Kept, Spare, Addrs, Cell.Data, Cell.Ok, Marked, AddFate, Abs.Contents;
    var r;
    ValidIs(m, b, g);
    FateTight(g, |data|);
    KeptAll(m, g.cells, NULL);
    r, m', b', g' := AddAnywhere(m, b, g, data);
    ok := r == Done;
  }

  // ----- prepending

  /** Putting more bytes in front of those of the first chunk. */
  lemma Widened(m: Memory, b: Evbuffer, g: Abs, c: Cell, data: seq<byte>, m': Memory, b': Evbuffer, g': Abs)
    requires b.Valid(m, g) && |g.cells| > 0
    requires c.Ok() && c.at == g.cells[0].at && c.Data() == data + g.cells[0].Data()
    requires g' == Abs(g.cells[0 := c], g.mark)
    requires c.at in m && m' == m[c.at := Chain(m[c.at].next, c.misalign, c.off, c.buffer)]
    requires b' == b.(totalLen := b.totalLen + |data|)
    ensures b'.Valid(m', g') && Kept(m, g.cells, m', g'.cells)
    ensures g'.Contents() == data + g.Contents()
  {
    hide Bytes, BytesTo, Cell.Data, Seg, Kept, Spare;
    var cs := g.cells;
    DataLen(c);
    CellOk(cs, 0);
    Rewritten(m, b, cs, 0, c, m', b');
    BytesFirst(cs);
    BytesNone();
    assert cs[..0] == [];
    assert (data + cs[0].Data()) + Bytes(cs[1..]) == data + (cs[0].Data() + Bytes(cs[1..]));
  }

  lemma FrontedSeg(m: Memory, cs: seq<Cell>, c0: Cell, c: Cell, m': Memory)
    requires Seg(m, cs, NULL) && c.at == c0.at && c.at in m && c.at != NULL && c.at !in Addrs(cs)
    requires m' == m[c.at := Chain(At(cs, 0, NULL), c.misalign, c.off, c.buffer)]
    ensures Seg(m', [c] + cs, NULL) && Kept(m, cs + [c0], m', [c] + cs)
  {
    hide Cell.Ok;
    KeptFill(m, cs, NULL, c0, m'[c.at]);
    AddrsJoin(cs, [c]);
    AddrsJoin([c], cs);
    assert Seg(m', [c], At(cs, 0, NULL));
    SegJoin(m', [c], cs, NULL);
  }

  lemma FrontedMark(g: Abs, c: Cell, g': Abs)
    requires Marked(g.cells, g.mark) && |g.cells| > 0 && g.cells[0].off > 0
    requires g' == Abs([c] + g.cells, g.mark + 1)
    ensures Marked(g'.cells, g'.mark) && LastOf(g'.cells) == LastOf(g.cells) && At(g'.cells, 0, NULL) == c.at
    ensures SlotOf(g'.cells, g'.mark) ==
      if SlotOf(g.cells, g.mark).First? then NextOf(c.at) else SlotOf(g.cells, g.mark)
  {}

  /** Linking a new chunk in front of the first one. */
  lemma Fronted(m: Memory, b: Evbuffer, g: Abs, c0: Cell, c: Cell, m': Memory, b': Evbuffer, g': Abs)
    requires b.Valid(m, g) && |g.cells| > 0 && g.cells[0].off > 0
    requires c.Ok() && c.at == c0.at && c.at in m && c.at !in Addrs(g.cells)
    requires m' == m[c.at := Chain(b.first, c.misalign, c.off, c.buffer)]
    requires b' == Evbuffer(c.at, b.last, if b.lastWithDatap.First? then NextOf(c.at) else b.lastWithDatap,
                            b.totalLen + c.off)
    requires g' == Abs([c] + g.cells, g.mark + 1)
    ensures b'.Valid(m', g') && Kept(m, g.cells + [c0], m', g'.cells)
    ensures g'.Contents() == c.Data() + g.Contents()
  {
    hide Bytes, BytesTo, Cell.Data, Spare, Seg, Sound, Kept, Marked, Addrs, SlotOf;
    var cs := g.cells;
    AddrsOne(c);
    SoundOne(c);
    SoundJoin([c], cs);
    FrontedSeg(m, cs, c0, c, m');
    FrontedMark(g, c, g');
    BytesConcat([c], cs);
    BytesOne(c);
    DataLen(c);
  }

  /** Writing data just before the bytes of a chunk. */
  function Prepended(ch: Chain, data: seq<byte>): (r: Chain)
    requires ch.misalign + ch.off <= |ch.buffer| && |data| <= ch.misalign
  {
    ch.(buffer := WriteAt(ch.buffer, ch.misalign - |data|, data), off := ch.off + |data|,
        misalign := ch.misalign - |data|)
  }

  lemma PrependedCell(c: Cell, ch: Chain, data: seq<byte>)
    requires c.Ok() && c == CellOf(c.at, ch) && |data| <= ch.misalign
    ensures var r := CellOf(c.at, Prepended(ch, data)); r.Ok() && r.Data() == data + c.Data()
    ensures |data| <= CHAIN_MAX - CHAIN_SIZE
  {
    WriteBefore(ch.buffer, ch.misalign, ch.off, data);
  }

  lemma ReachEnd(c: Cell)
    requires c.Ok() && c.off == 0
    ensures c.(misalign := |c.buffer|).Ok() && c.(misalign := |c.buffer|).Data() == c.Data()
  {}

  /** Writing within the first chunk, in front of its data. */
  method PrependInFirst(m: Memory, b: Evbuffer, ghost g: Abs, ch: Chain, data: seq<byte>)
    returns (m': Memory, b': Evbuffer, ghost g': Abs)
    requires b.Valid(m, g) && |g.cells| > 0 && |data| <= ch.misalign
    requires var c := CellOf(b.first, ch); c.Ok() && c.Data() == g.cells[0].Data()
    requires b.first in m && ch.next == m[b.first].next
    ensures b'.Valid(m', g') && Kept(m, g.cells, m', g'.cells) && g'.Contents() == data + g.Contents()
    ensures g'.mark == g.mark && |g'.cells| == |g.cells| && b'.first == b.first
    ensures g'.cells[0].off == ch.off + |data| && g'.cells[1..] == g.cells[1..]
    ensures b'.totalLen == b.totalLen + |data|
  {
    hide Bytes, BytesTo, Seg, Sound, Kept, Spare, Addrs, Cell.Data, Cell.Ok, WriteAt;
    PrependedCell(CellOf(b.first, ch), ch, data);
    m', b' := m[b.first := Prepended(ch, data)], b.(totalLen := b.totalLen + |data|);
    g' := g.(cells := g.cells[0 := CellOf(b.first, Prepended(ch, data))]);
    Widened(m, b, g, g'.cells[0], data, m', b', g');
  }

  /** A new chunk in front, filled from its end. */
  method PrependChunk(m: Memory, b: Evbuffer, ghost g: Abs, data: seq<byte>)
    returns (ok: bool, m': Memory, b': Evbuffer, ghost g': Abs)
    requires b.Valid(m, g) && |g.cells| > 0 && g.cells[0].off > 0 && |data| > 0
    ensures b'.Valid(m', g') && Kept(m, g.cells, m', g'.cells)
    ensures ok <==> |data| <= CHAIN_MAX - CHAIN_SIZE
    ensures !ok ==> g' == g
    ensures ok ==>
      && g'.Contents() == data + g.Contents() && g'.cells[1..] == g.cells && |g'.cells| > 0 && g'.cells[0].off > 0
      && g'.mark == g.mark + 1
  {
    hide Bytes, BytesTo, Seg, Sound, Kept, Spare, Addrs, Cell.Data, Cell.Ok, WriteAt, Marked, Abs.Contents;
    ok, m', b', g' := true, m, b, g;
    KeptAll(m, g.cells, NULL);
    var tmp; ghost var c;
    m', tmp, c := ChainNew(m, |data|);
    if tmp == NULL {
      ok := false;
      return;
    }
    KeptNew(m, g.cells, NULL, c, m'[tmp]);
    var blank := m'[tmp].(misalign := |m'[tmp].buffer|);
    ReachEnd(c);
    SpareData(c);
    PrependedCell(CellOf(tmp, blank), blank, data);
    ghost var m1 := m';
    m' := m'[tmp := Prepended(blank, data).(next := b.first)];
    b' := Evbuffer(tmp, b.last, if b.lastWithDatap.First? then NextOf(tmp) else b.lastWithDatap, b.totalLen + |data|);
    ghost var c' := CellOf(tmp, Prepended(blank, data));
    g' := Abs([c'] + g.cells, g.mark + 1);
    Fronted(m1, b, g, c, c', m', b', g');
    KeptSteps(m, g.cells, m1, g.cells + [c], m', g'.cells);
  }

  /** The room in front of the first chunk, all of it if the chunk is empty. */
  ghost function FrontRoom(g: Abs): (n: nat)
  {
    if |g.cells| == 0 then 0 else if g.cells[0].off == 0 then |g.cells[0].buffer| else g.cells[0].misalign
  }

  /** The part of evbuffer_prepend that has a first chunk to start from. */
  method PrependToFirst(m: Memory, b: Evbuffer, ghost g: Abs, data: seq<byte>)
    returns (ok: bool, m': Memory, b': Evbuffer, ghost g': Abs)
    requires b.Valid(m, g) && |g.cells| > 0
    ensures b'.Valid(m', g') && Kept(m, g.cells, m', g'.cells)
    ensures g.Tight() ==> g'.Tight()
    ensures g.Packed() ==> g'.Packed()
    ensures ok <==> |data| <= FrontRoom(g) + (CHAIN_MAX - CHAIN_SIZE)
    ensures ok ==> g'.Contents() == data + g.Contents()
    ensures !ok ==> g'.Contents() == data[|data| - FrontRoom(g)..] + g.Contents()
  {
    hide Bytes, BytesTo, Seg, Sound, Kept, Spare, Addrs, Cell.Data, Cell.Ok, WriteAt, Marked, Abs.Contents, Abs.Tight,
      Abs.Packed;
    ChunkAt(m, g.cells, 0);
    ok, m', b', g' := true, m, b, g;
    var chain := b.first;
    var ch := m[chain];
    if ch.off == 0 {
      ReachEnd(g.cells[0]);
      ch := ch.(misalign := |ch.buffer|);
    }
    if ch.misalign >= |data| {
      m', b', g' := PrependInFirst(m, b, g, ch, data);
      FrontSame(g, g');
      return;
    }
    var rest := |data| - ch.misalign;
    m', b', g' := PrependInFirst(m, b, g, ch, data[rest..]);
    FrontSame(g, g');
    ghost var m1, g1 := m', g';
    ok, m', b', g' := PrependChunk(m', b', g', data[..rest]);
    if ok { FrontMore(g1, g'); }
    KeptSteps(m, g.cells, m1, g1.cells, m', g'.cells);
    assert data == data[..rest] + data[rest..];
    assert data[..rest] + (data[rest..] + g.Contents()) == data + g.Contents();
  }

  /** A buffer that is Tight, or Packed, stays so when its first chunk gets more data. */
  lemma FrontSame(g: Abs, g': Abs)
    requires |g'.cells| == |g.cells| > 0 && g'.mark == g.mark && g'.cells[1..] == g.cells[1..]
    requires g'.cells[0].off >= g.cells[0].off
    ensures g.Tight() ==> g'.Tight()
    ensures g.Packed() ==> g'.Packed()
  {
    assert forall i :: 0 < i < |g.cells| ==> g'.cells[i] == g'.cells[1..][i - 1] == g.cells[i];
  }

  /** And when a chunk with data comes before it. */
  lemma FrontMore(g: Abs, g': Abs)
    requires |g'.cells| == |g.cells| + 1 && |g.cells| > 0 && g'.mark == g.mark + 1 && g'.cells[1..] == g.cells
    requires g'.cells[0].off > 0
    ensures g.Tight() ==> g'.Tight()
    ensures g.Packed() ==> g'.Packed()
  {
    assert forall i :: 0 < i < |g'.cells| ==> g'.cells[i] == g.cells[i - 1];
  }

  /** evbuffer_prepend; when the second allocation is refused, the end of data is in the buffer already. */
  method Prepend(m: Memory, b: Evbuffer, ghost g: Abs, data: seq<byte>)
    returns (ok: bool, m': Memory, b': Evbuffer, ghost g': Abs)
    requires b.Valid(m, g)
    ensures b'.Valid(m', g') && Kept(m, g.cells, m', g'.cells)
    ensures g.Tight() ==> g'.Tight()
    ensures g.Packed() ==> g'.Packed()
    ensures ok <==> |data| <= SIZE_MAX - b.totalLen && |data| <= FrontRoom(g) + (CHAIN_MAX - CHAIN_SIZE)
    ensures ok ==> g'.Contents() == data + g.Contents()
    ensures !ok ==>
      g'.Contents() == (if |data| > SIZE_MAX - b.totalLen then [] else data[|data| - FrontRoom(g)..]) + g.Contents()
    ensures !ok && |data| <= SIZE_MAX - b.totalLen ==>
      |g'.Contents()| - |g.Contents()| ==
        if g.cells == [] then 0 else if g.cells[0].off == 0 then |g.cells[0].buffer| else g.cells[0].misalign
  {
    hide Bytes, BytesTo, Seg, Sound, Kept, Spare, Addrs, Cell.Data, Cell.Ok, Marked;
    ok, m', b', g' := false, m, b, g;
    KeptAll(m, g.cells, NULL);
    assert data[|data|..] == [] && [] + g.Contents() == g.Contents();
    if |data| > SIZE_MAX - b.totalLen {
      return;
    }
    if |g.cells| > 0 {
      CellOk(g.cells, 0);
    }
    if b.first == NULL {
      var chain; ghost var c;
      m', chain, c := ChainNew(m, |data|);
      if chain == NULL {
        return;
      }
      KeptNew(m, g.cells, NULL, c, m'[chain]);
      ghost var m1 := m';
      var aborted;
      ValidIs(m, b, g);
      FilledPointed(m, b, g, chain, m1[chain]);
      aborted, m', b', g' := ChainInsert(m', b, g, chain, c);
      KeptSteps(m, g.cells, m1, g.cells + [c], m', g'.cells);
      SpareData(c);
    }
    assert g'.Contents() == g.Contents();
    ghost var m1, g1 := m', g';
    ok, m', b', g' := PrependToFirst(m', b', g', data);
    KeptSteps(m, g.cells, m1, g1.cells, m', g'.cells);
  }

  // ----- removing from the front

  /** The same chunk with data is the last one. */
  lemma SuffixMark(g: Abs, k: nat, cs: seq<Cell>, c: Cell)
    requires Marked(g.cells, g.mark) && k <= g.mark && k < |g.cells| && cs == g.cells[k..]
    requires c.at == cs[0].at && c.off > 0
    ensures var g' := Abs(cs[0 := c], g.mark - k);
      && Marked(g'.cells, g'.mark) && LastOf(g'.cells) == LastOf(g.cells) && At(g'.cells, 0, NULL) == c.at
      && SlotOf(g'.cells, g'.mark) == (if k < g.mark then SlotOf(g.cells, g.mark) else First)
      && (g.Tight() ==> g'.Tight()) && (g.Packed() ==> g'.Packed())
  {
    var cs' := cs[0 := c];
    assert forall i :: 0 < i < |cs'| ==> cs'[i] == g.cells[i + k];
  }

  /** The chunks of g from k on, the first of them cut down to c by r bytes, as a buffer of their own. */
  lemma Suffix(g: Abs, last: Ptr, k: nat, m: Memory, cs: seq<Cell>, r: nat, c: Cell, m': Memory, b': Evbuffer)
    requires Marked(g.cells, g.mark) && last == LastOf(g.cells)
    requires k <= g.mark && k < |g.cells| && cs == g.cells[k..] && r < cs[0].off
    requires c == Cell(cs[0].at, cs[0].misalign + r, cs[0].off - r, cs[0].buffer)
    requires Seg(m, cs, NULL) && Sound(cs)
    requires c.at in m && m' == m[c.at := Chain(m[c.at].next, c.misalign, c.off, c.buffer)]
    requires r <= |Bytes(cs)|
    requires b' == Evbuffer(c.at, last, if k < g.mark then SlotOf(g.cells, g.mark) else First, |Bytes(cs)| - r)
    ensures var g' := Abs(cs[0 := c], g.mark - k);
      && b'.Valid(m', g') && Kept(m, cs, m', g'.cells) && g'.Contents() == Bytes(cs)[r..]
      && (g.Tight() ==> g'.Tight()) && (g.Packed() ==> g'.Packed())
  {
    hide Bytes, BytesTo, Cell.Data, Kept, Addrs, Spare, Marked, SlotOf, Seg, Sound, Abs.Tight, Abs.Packed;
    CellOk(cs, 0);
    SuffixMark(g, k, cs, c);
    var b1 := b'.(totalLen := |Bytes(cs)|);
    Rewritten(m, b1, cs, 0, c, m', b');
    BytesFirst(cs);
    BytesNone();
    assert cs[..0] == [];
    TrimmedData(cs[0], r, c);
    assert (cs[0].Data() + Bytes(cs[1..]))[r..] == cs[0].Data()[r..] + Bytes(cs[1..]);
  }

  lemma TrimmedData(c: Cell, r: nat, c': Cell)
    requires c.Ok() && r <= c.off && c' == Cell(c.at, c.misalign + r, c.off - r, c.buffer)
    ensures c'.Ok() && |c.Data()| == c.off && c'.Data() == c.Data()[r..]
  {}

  lemma SmallChunk(c: Cell)
    requires c.Ok()
    ensures c.off <= CHAIN_MAX - CHAIN_SIZE
  {}

  lemma Apart(cs: seq<Cell>, i: nat, j: nat)
    requires Sound(cs) && i < j < |cs|
    ensures cs[i].at != cs[j].at
  {}

  /** With data in the buffer, the marked chunk has some. */
  lemma MarkHasData(g: Abs)
    requires Marked(g.cells, g.mark) && Sound(g.cells) && g.Contents() != []
    ensures g.mark < |g.cells| && g.cells[g.mark].off > 0
  {
    hide Bytes, BytesTo, Cell.Data, Cell.Ok;
    BytesNone();
    assert |g.cells| == 0 ==> g.cells == [];
    if g.mark == 0 && g.cells[0].off == 0 {
      assert Spare(g.cells);
      BytesSpare(g.cells);
      assert false;
    }
  }

  /** evbuffer_drain */
  method Drain(m: Memory, b: Evbuffer, ghost g: Abs, len: nat) returns (m': Memory, b': Evbuffer, ghost g': Abs)
    requires b.Valid(m, g)
    ensures b'.totalLen == if len < b.totalLen then b.totalLen - len else 0
    ensures b'.Valid(m', g') && Kept(m, g.cells, m', g'.cells)
    ensures g'.Contents() == if len < |g.Contents()| then g.Contents()[len..] else []
    ensures g.Tight() ==> g'.Tight()
    ensures g.Packed() ==> g'.Packed()
  {
    hide Bytes, BytesTo, Seg, Sound, Kept, Spare, Addrs, Cell.Data, Cell.Ok, WriteAt;
    m', b', g' := m, b, g;
    KeptAll(m, g.cells, NULL);
    if b.totalLen == 0 {
      return;
    }
    if len >= b.totalLen {
      m' := FreeAllChains(m, b.first, g.cells);
      b', g' := EMPTY, Abs([], 0);
      EmptyValid(m');
      return;
    }
    b' := b'.(totalLen := b.totalLen - len);
    var remaining: nat := len;
    var chain := b.first;
    ghost var k := 0;
    assert g.cells[0..] == g.cells;
    BytesNone();
    assert |g.cells| == 0 ==> g.cells == [];
    PastMark(g.cells, g.mark);
    ChunkAt(m, g.cells, 0);
    while remaining >= m'[chain].off
      invariant k <= g.mark && k < |g.cells|
      invariant Seg(m', g.cells[k..], NULL) && Sound(g.cells[k..]) && Kept(m, g.cells, m', g.cells[k..])
      invariant chain == g.cells[k].at && chain in m' && m'[chain].off == g.cells[k].off
      invariant remaining < |Bytes(g.cells[k..])| && Bytes(g.cells)[len..] == Bytes(g.cells[k..])[remaining..]
      invariant b' == b.(totalLen := b.totalLen - len, lastWithDatap := if k < g.mark then b.lastWithDatap else First)
      decreases |g.cells| - k
    {
      ghost var cs, m0 := g.cells[k..], m';
      assert k < g.mark;
      ChunkAt(m', cs, 0);
      ChunkAt(m', cs, 1);
      ChunkAt(m', cs, g.mark - 1 - k);
      Apart(g.cells, k, g.mark);
      if k < g.mark - 1 { Apart(g.cells, k, g.mark - 1); }
      FreedFirst(m', cs);
      assert cs[1..] == g.cells[k + 1..];
      assert Bytes(cs)[remaining..] == Bytes(cs[1..])[remaining - cs[0].off..];
      var next := m'[chain].next;
      remaining := remaining - m'[chain].off;
      if chain == b'.Deref(m', b'.lastWithDatap) {
        b' := b'.(lastWithDatap := First);
      }
      if b'.lastWithDatap == NextOf(chain) {
        b' := b'.(lastWithDatap := First);
      }
      m' := m' - {chain};
      KeptSteps(m, g.cells, m0, cs, m', cs[1..]);
      chain := next;
      k := k + 1;
      ChunkAt(m', g.cells[k..], 0);
    }
    ghost var cs, m1 := g.cells[k..], m';
    ChunkAt(m', cs, 0);
    b' := b'.(first := chain);
    m' := m'[chain := m'[chain].(misalign := m'[chain].misalign + remaining, off := m'[chain].off - remaining)];
    ghost var c := CellOf(chain, m'[chain]);
    g' := Abs(cs[0 := c], g.mark - k);
    Suffix(g, b.last, k, m1, cs, remaining, c, m', b');
    KeptSteps(m, g.cells, m1, cs, m', g'.cells);
  }

  /** The bytes from the marked chunk on are its own. */
  lemma PastMark(cs: seq<Cell>, mark: nat)
    requires Marked(cs, mark) && Sound(cs) && mark < |cs|
    ensures Bytes(cs[mark..]) == cs[mark].Data() && |cs[mark].Data()| == cs[mark].off
  {
    hide Bytes, BytesTo, Cell.Data;
    BytesFirst(cs[mark..]);
    assert Spare(cs[mark..][1..]);
    BytesSpare(cs[mark..][1..]);
    CellOk(cs, mark);
  }

  /** evbuffer_copyout */
  method Copyout(m: Memory, b: Evbuffer, ghost g: Abs, datlen: nat) returns (out: seq<byte>)
    requires b.Valid(m, g)
    ensures out == g.Contents()[..if datlen < |g.Contents()| then datlen else |g.Contents()|]
  {
    hide Bytes, BytesTo, Seg, Sound, Spare, Addrs, Cell.Data, Cell.Ok, Marked;
    var left := if datlen >= b.totalLen then b.totalLen else datlen;
    ghost var n := left;
    out := [];
    if left == 0 {
      return;
    }
    var chain := b.first;
    ghost var k := 0;
    assert g.cells[0..] == g.cells;
    NextHas(m, g.cells, 0);
    while left != 0 && left >= m[chain].off
      invariant k <= |g.cells| && 0 <= left <= |Bytes(g.cells[k..])|
      invariant Bytes(g.cells)[..n] == out + Bytes(g.cells[k..])[..left]
      invariant left != 0 ==>
        k < |g.cells| && chain == g.cells[k].at && chain in m && g.cells[k] == CellOf(chain, m[chain])
      decreases |g.cells| - k
    {
      ghost var cs := g.cells[k..];
      BytesFirst(cs);
      assert cs[1..] == g.cells[k + 1..];
      ChunkAt(m, g.cells, k);
      var ch := m[chain];
      out := out + ch.buffer[ch.misalign..ch.misalign + ch.off];
      DataOf(cs[0], ch);
      assert Bytes(cs)[..left] == cs[0].Data() + Bytes(cs[1..])[..left - ch.off];
      left := left - ch.off;
      chain := ch.next;
      k := k + 1;
      if left != 0 {
        NextHas(m, g.cells, k);
      }
    }
    if left != 0 {
      var ch := m[chain];
      ChunkAt(m, g.cells, k);
      BytesFirst(g.cells[k..]);
      DataHead(g.cells[k], ch, left);
      assert Bytes(g.cells[k..])[..left] == g.cells[k].Data()[..left];
      out := out + ch.buffer[ch.misalign..ch.misalign + left];
    }
  }

  lemma DataOf(c: Cell, ch: Chain)
    requires c.Ok() && c == CellOf(c.at, ch)
    ensures ch.misalign + ch.off <= |ch.buffer| && c.Data() == ch.buffer[ch.misalign..ch.misalign + ch.off]
  {}

  lemma DataHead(c: Cell, ch: Chain, left: nat)
    requires c.Ok() && c == CellOf(c.at, ch) && left <= c.off
    ensures ch.misalign + left <= |ch.buffer| && |c.Data()| == c.off
    ensures c.Data()[..left] == ch.buffer[ch.misalign..ch.misalign + left]
  {}

  /** Where bytes are left there is a chunk. */
  lemma NextHas(m: Memory, cs: seq<Cell>, k: nat)
    requires Seg(m, cs, NULL) && Sound(cs) && k <= |cs| && Bytes(cs[k..]) != []
    ensures k < |cs| && cs[k].at in m && cs[k] == CellOf(cs[k].at, m[cs[k].at])
    ensures m[cs[k].at].next == At(cs, k + 1, NULL)
  {
    ChunkAt(m, cs, k);
  }

  /** evbuffer_remove */
  method Remove(m: Memory, b: Evbuffer, ghost g: Abs, datlen: nat)
    returns (out: seq<byte>, m': Memory, b': Evbuffer, ghost g': Abs)
    requires b.Valid(m, g)
    ensures b'.Valid(m', g') && Kept(m, g.cells, m', g'.cells)
    ensures |out| + b'.totalLen == b.totalLen
    ensures out + g'.Contents() == g.Contents() && |out| == if datlen < |g.Contents()| then datlen else |g.Contents()|
    ensures g.Tight() ==> g'.Tight()
    ensures g.Packed() ==> g'.Packed()
  {
    hide Bytes, BytesTo, Seg, Sound, Kept, Spare, Addrs, Cell.Data, Cell.Ok, Marked;
    out := Copyout(m, b, g, datlen);
    m', b', g' := m, b, g;
    KeptAll(m, g.cells, NULL);
    if |out| > 0 {
      m', b', g' := Drain(m, b, g, |out|);
    }
  }
}
