/** evbuffer_pullup: making the first bytes of a buffer contiguous. */
module EvbufferPullup {
  import opened Basics
  import opened Chunks
  import opened Evbuffers

  /** NULL, or chunk->buffer + pos */
  datatype Pulled = Nothing | Within(chain: Ptr, pos: nat)

  /** Filling in part of the chunk t, and freeing the first chunk of a list beside it. */
  lemma GatheredOne(m: Memory, t: Cell, rest: seq<Cell>, buffer: seq<byte>, m': Memory)
    requires Seg(m, rest, NULL) && Sound(rest) && |rest| > 0 && t.at !in Addrs(rest) && t.at in m
    requires m' == m[t.at := m[t.at].(buffer := buffer)] - {rest[0].at}
    ensures Seg(m', rest[1..], NULL) && Sound(rest[1..]) && Kept(m, [t] + rest, m', [t] + rest[1..])
    ensures t.at !in Addrs(rest[1..]) && t.at in m' && m'[t.at] == m[t.at].(buffer := buffer)
    ensures Bytes(rest) == rest[0].Data() + Bytes(rest[1..])
  {
    hide Bytes, BytesTo, Cell.Data, Cell.Ok, Sound, Seg, Kept, Addrs;
    var m1 := m[t.at := m[t.at].(buffer := buffer)];
    ChunkAt(m, rest, 0);
    AddrIn(rest, 0);
    SegSame(m, m1, rest, NULL);
    KeptInside(m, t, rest, m1[t.at]);
    FreedFirst(m1, rest);
    SegFind(m1, rest, NULL);
    AddrsOne(t);
    KeptFrom(m1, [t], rest, m', rest[1..]);
    KeptSteps(m, [t] + rest, m1, [t] + rest, m', [t] + rest[1..]);
    SoundSplit(rest, 1);
  }

  /** Rewriting a chunk beside a list. */
  lemma KeptInside(m: Memory, t: Cell, cs: seq<Cell>, ch: Chain)
    requires Seg(m, cs, NULL) && t.at in m
    ensures Kept(m, [t] + cs, m[t.at := ch], [t] + cs)
  {
    SegFind(m, cs, NULL);
    AddrsJoin([t], cs);
    AddrsOne(t);
  }

  /**
   Copying whole chunks to pos in the chunk tmp, and freeing them, while they fit in the size bytes wanted.
   The chunks are those of g from k0 on; what tmp holds before pos is the bytes of the chunks before k0.
   */
  method Gather(m: Memory, b: Evbuffer, ghost g: Abs, tmp: Ptr, ghost t: Cell, ghost k0: nat, from: Ptr, size: nat,
                pos: nat, lastWithData: Ptr)
    returns (m': Memory, chain: Ptr, size': nat, pos': nat, removedLast: bool, removedLastp: bool, ghost k: nat)
    requires k0 < |g.cells| && Seg(m, g.cells[k0..], NULL) && Sound(g.cells) && 0 < g.mark < |g.cells|
    requires from == g.cells[k0].at
    requires b.lastWithDatap == NextOf(g.cells[g.mark - 1].at) && lastWithData == g.cells[g.mark].at
    requires t.at == tmp && tmp !in Addrs(g.cells[k0..]) && tmp in m && m[tmp].buffer == t.buffer
    requires t.misalign <= pos && pos + size <= |t.buffer| && t.buffer[t.misalign..pos] == Bytes(g.cells[..k0])
    ensures k0 <= k <= |g.cells| && chain == At(g.cells, k, NULL)
    ensures Seg(m', g.cells[k..], NULL) && Kept(m, [t] + g.cells[k0..], m', [t] + g.cells[k..])
    ensures tmp !in Addrs(g.cells[k..])
    ensures tmp in m' && m'[tmp] == m[tmp].(buffer := m'[tmp].buffer) && |m'[tmp].buffer| == |t.buffer|
    ensures pos <= pos' && pos' + size' == pos + size && m'[tmp].buffer[t.misalign..pos'] == Bytes(g.cells[..k])
    ensures k < |g.cells| ==> size' < g.cells[k].off
    ensures removedLast <==> k0 <= g.mark < k
    ensures removedLastp <==> k0 <= g.mark - 1 < k
  {
    hide Bytes, BytesTo, Seg, Sound, Kept, Spare, Addrs, Cell.Data, Cell.Ok, WriteAt;
    ghost var cs := g.cells;
    m', chain, size', pos', removedLast, removedLastp, k := m, from, size, pos, false, false, k0;
    SoundSplit(cs, k0);
    ChunkAt(m, cs[k0..], 0);
    assert cs[k0..][0] == cs[k0];
    assert m == m[tmp := m[tmp]];
    KeptInside(m, t, cs[k0..], m[tmp]);
    while chain != NULL && size' >= m'[chain].off
      invariant k0 <= k <= |cs| && chain == At(cs, k, NULL)
      invariant Seg(m', cs[k..], NULL) && Sound(cs[k..]) && Kept(m, [t] + cs[k0..], m', [t] + cs[k..])
      invariant tmp !in Addrs(cs[k..])
      invariant tmp in m' && m'[tmp] == m[tmp].(buffer := m'[tmp].buffer) && |m'[tmp].buffer| == |t.buffer|
      invariant pos <= pos' && pos' + size' == pos + size && m'[tmp].buffer[t.misalign..pos'] == Bytes(cs[..k])
      invariant k < |cs| ==> chain != NULL && chain in m' && m'[chain].off == cs[k].off
      invariant removedLast <==> k0 <= g.mark < k
      invariant removedLastp <==> k0 <= g.mark - 1 < k
      decreases |cs| - k
    {
      ghost var rest, m0 := cs[k..], m';
      assert rest[0] == cs[k] && rest[1..] == cs[k + 1..];
      ChunkAt(m', rest, 0);
      AddrIn(rest, 0);
      var ch := m'[chain];
      DataOf(rest[0], ch);
      var data := ch.buffer[ch.misalign..ch.misalign + ch.off];
      var buffer := WriteAt(m'[tmp].buffer, pos', data);
      WriteAfter(m'[tmp].buffer, t.misalign, pos' - t.misalign, data);
      GatheredOne(m', t, rest, buffer, m'[tmp := m'[tmp].(buffer := buffer)] - {chain});
      BytesPush(cs[..k], cs[k]);
      assert cs[..k + 1] == cs[..k] + [cs[k]];
      MarkedChunk(cs, g.mark, k);
      m' := m'[tmp := m'[tmp].(buffer := buffer)];
      size' := size' - ch.off;
      pos' := pos' + ch.off;
      if chain == lastWithData {
        removedLast := true;
      }
      if NextOf(chain) == b.lastWithDatap {
        removedLastp := true;
      }
      m' := m' - {chain};
      KeptSteps(m, [t] + cs[k0..], m0, [t] + cs[k..], m', [t] + cs[k + 1..]);
      chain := ch.next;
      k := k + 1;
      if k < |cs| { ChunkAt(m', cs[k..], 0); assert cs[k..][0] == cs[k]; }
    }
  }

  /** Comparing addresses compares places in the list. */
  lemma MarkedChunk(cs: seq<Cell>, mark: nat, k: nat)
    requires Sound(cs) && 0 < mark < |cs| && k < |cs|
    ensures cs[k].at == cs[mark].at <==> k == mark
    ensures cs[k].at == cs[mark - 1].at <==> k == mark - 1
  {}

  /** Copying the first size bytes of a list into the chunk beside it, and cutting them from the list. */
  lemma CutBeside(m: Memory, t: Cell, pos: nat, rest: seq<Cell>, size: nat, c: Cell, t': Cell, m': Memory)
    requires Seg(m, rest, NULL) && Sound(rest) && |rest| > 0 && t.at !in Addrs(rest) && t.at in m
    requires t == CellOf(t.at, m[t.at]) && t.Ok()
    requires size < rest[0].off && t.misalign <= pos && t.misalign + t.off == pos + size
    requires c == Cell(rest[0].at, rest[0].misalign + size, rest[0].off - size, rest[0].buffer)
    requires size <= |rest[0].Data()| && t' == t.(buffer := WriteAt(t.buffer, pos, rest[0].Data()[..size]))
    requires c.at in m
    requires m' == m[t.at := m[t.at].(buffer := t'.buffer)][c.at := Chain(m[c.at].next, c.misalign, c.off, c.buffer)]
    ensures Seg(m', rest[0 := c], NULL) && Sound(rest[0 := c]) && Addrs(rest[0 := c]) == Addrs(rest)
    ensures Kept(m, [t] + rest, m', [t'] + rest[0 := c]) && t.at in m' && m'[t.at] == m[t.at].(buffer := t'.buffer)
    ensures size <= |Bytes(rest)| && Bytes(rest[0 := c]) == Bytes(rest)[size..]
    ensures t'.Ok() && t'.Data() == t.buffer[t.misalign..pos] + Bytes(rest)[..size]
  {
    hide Bytes, BytesTo, Sound, Seg, Kept, Addrs, Cell.Ok;
    CellOk(rest, 0);
    AddrIn(rest, 0);
    TrimmedData(rest[0], size, c);
    BytesFirst(rest);
    BytesFirst(rest[0 := c]);
    assert rest[0 := c][1..] == rest[1..];
    assert (rest[0].Data() + Bytes(rest[1..]))[size..] == rest[0].Data()[size..] + Bytes(rest[1..]);
    assert (rest[0].Data() + Bytes(rest[1..]))[..size] == rest[0].Data()[..size];
    FilledUp(t, pos, rest[0].Data()[..size], t');
    CutBesideSeg(m, t, rest, c, t', m');
  }

  lemma FilledUp(t: Cell, pos: nat, data: seq<byte>, t': Cell)
    requires t.Ok() && t.misalign <= pos && t.misalign + t.off == pos + |data|
    requires t' == t.(buffer := WriteAt(t.buffer, pos, data))
    ensures t'.Ok() && t'.Data() == t.buffer[t.misalign..pos] + data
  {
    WriteAfter(t.buffer, t.misalign, pos - t.misalign, data);
  }

  lemma CutBesideSeg(m: Memory, t: Cell, rest: seq<Cell>, c: Cell, t': Cell, m': Memory)
    requires Seg(m, rest, NULL) && Sound(rest) && |rest| > 0 && t.at !in Addrs(rest) && t.at in m
    requires c.Ok() && c.at == rest[0].at && t'.at == t.at
    requires c.at in m
    requires m' == m[t.at := m[t.at].(buffer := t'.buffer)][c.at := Chain(m[c.at].next, c.misalign, c.off, c.buffer)]
    ensures Seg(m', rest[0 := c], NULL) && Sound(rest[0 := c]) && Addrs(rest[0 := c]) == Addrs(rest)
    ensures Kept(m, [t] + rest, m', [t'] + rest[0 := c]) && t.at in m' && m'[t.at] == m[t.at].(buffer := t'.buffer)
  {
    hide Cell.Ok, Cell.Data;
    var m1 := m[t.at := m[t.at].(buffer := t'.buffer)];
    AddrIn(rest, 0);
    SegSame(m, m1, rest, NULL);
    SegUpdate(m1, rest, NULL, 0, c);
    SoundUpdate(rest, 0, c);
    AddrsJoin([t], rest);
    AddrsJoin([t'], rest[0 := c]);
    AddrsOne(t);
    AddrsOne(t');
    SegFind(m, rest, NULL);
  }

  /** Linking the chunk t in front of a list. */
  lemma Relinked(m: Memory, t: Cell, rest: seq<Cell>, m': Memory)
    requires Seg(m, rest, NULL) && Sound(rest) && t.Ok() && t.at !in Addrs(rest) && t.at in m
    requires t == CellOf(t.at, m[t.at])
    requires m' == m[t.at := m[t.at].(next := At(rest, 0, NULL))]
    ensures Seg(m', [t] + rest, NULL) && Sound([t] + rest) && Bytes([t] + rest) == t.Data() + Bytes(rest)
    ensures Kept(m, [t] + rest, m', [t] + rest)
  {
    hide Bytes, BytesTo, Cell.Data, Cell.Ok, Spare;
    KeptInside(m, t, rest, m'[t.at]);
    AddrsOne(t);
    SoundOne(t);
    SoundJoin([t], rest);
    SegSame(m, m', rest, NULL);
    assert Seg(m', [t], At(rest, 0, NULL));
    SegJoin(m', [t], rest, NULL);
    BytesConcat([t], rest);
    BytesOne(t);
  }

  /** The last bytes wanted, when they are only part of a chunk. */
  method CopyPart(m: Memory, tmp: Ptr, ghost t: Cell, ghost rest: seq<Cell>, chain: Ptr, size: nat, pos: nat)
    returns (m': Memory, ghost t': Cell, ghost rest': seq<Cell>)
    requires Seg(m, rest, NULL) && Sound(rest) && tmp !in Addrs(rest) && chain == At(rest, 0, NULL)
    requires t.at == tmp && tmp in m && t == CellOf(tmp, m[tmp]) && t.Ok()
    requires t.misalign <= pos && t.misalign + t.off == pos + size
    requires if |rest| > 0 then size < rest[0].off else size == 0
    ensures Seg(m', rest', NULL) && Sound(rest') && tmp !in Addrs(rest') && Kept(m, [t] + rest, m', [t'] + rest')
    ensures tmp in m' && t' == CellOf(tmp, m'[tmp]) && m'[tmp].next == m[tmp].next && t'.Ok() && t'.off == t.off
    ensures t'.misalign == t.misalign
    ensures |rest'| == |rest|
    ensures (|rest| > 0 ==> rest'[0].off == rest[0].off - size && rest'[0].at == rest[0].at && rest'[1..] == rest[1..])
    ensures t'.Data() + Bytes(rest') == t.buffer[t.misalign..pos] + Bytes(rest)
  {
    hide Bytes, BytesTo, Seg, Sound, Kept, Spare, Addrs, Cell.Data, WriteAt;
    m', t', rest' := m, t, rest;
    if chain != NULL {
      ChunkAt(m, rest, 0);
      var ch := m[chain];
      DataOf(rest[0], ch);
      AddrIn(rest, 0);
      m' := m[tmp := m[tmp].(buffer := WriteAt(m[tmp].buffer, pos, ch.buffer[ch.misalign..ch.misalign + size]))];
      m' := m'[chain := ch.(misalign := ch.misalign + size, off := ch.off - size)];
      ghost var c := CellOf(chain, m'[chain]);
      t' := CellOf(tmp, m'[tmp]);
      assert rest[0].Data()[..size] == ch.buffer[ch.misalign..ch.misalign + size];
      CutBeside(m, t, pos, rest, size, c, t', m');
      rest' := rest[0 := c];
      assert Bytes(rest)[..size] + Bytes(rest)[size..] == Bytes(rest);
    } else {
      if |rest| > 0 { CellOk(rest, 0); }
      WholeData(t, pos);
      KeptInside(m, t, rest, m[tmp]);
      assert m == m[tmp := m[tmp]];
    }
  }

  /** Where data ends once the first k chunks have been pulled into one. */
  lemma PulledMark(g: Abs, k: nat, t: Cell, rest: seq<Cell>, g': Abs)
    requires Marked(g.cells, g.mark) && 0 < g.mark && 0 < k <= |g.cells| && t.off > 0
    requires |rest| == |g.cells| - k
    requires (|rest| > 0 ==> rest[0].off > 0 && g.cells[k].off > 0 && rest[1..] == g.cells[k..][1..])
    requires g' == Abs([t] + rest, if g.mark < k then 0 else g.mark - k + 1)
    ensures Marked(g'.cells, g'.mark) && (g.Tight() ==> g'.Tight()) && (g.Packed() ==> g'.Packed())
  {
    forall i | 0 < i < |rest| ensures rest[i] == g.cells[k + i] {
      assert rest[i] == rest[1..][i - 1] == g.cells[k..][1..][i - 1];
    }
    forall i | 0 < i < |g'.cells| ensures g'.cells[i].off == 0 <==> g.cells[k + i - 1].off == 0 {
      assert g'.cells[i] == rest[i - 1];
    }
  }

  /** The end of evbuffer_pullup: the rest of the bytes wanted, and where last_with_datap goes. */
  method Finish(m: Memory, b: Evbuffer, ghost g: Abs, tmp: Ptr, ghost t: Cell, ghost k0: nat, ghost k: nat, chain: Ptr,
                size: nat, pos: nat,
                removedLast: bool, removedLastp: bool)
    returns (m': Memory, b': Evbuffer, ghost g': Abs)
    requires Marked(g.cells, g.mark) && Sound(g.cells) && 0 < g.mark && k0 <= k <= |g.cells| && k0 <= 1 && 0 < k
    requires b == Evbuffer(tmp, LastOf(g.cells), NextOf(if g.mark == 1 && k0 == 1 then tmp else g.cells[g.mark - 1].at),
                           |Bytes(g.cells)|)
    requires Seg(m, g.cells[k..], NULL) && tmp !in Addrs(g.cells[k..]) && chain == At(g.cells, k, NULL)
    requires t.at == tmp && tmp in m && t == CellOf(tmp, m[tmp]) && t.Ok()
    requires t.misalign <= pos && t.misalign + t.off == pos + size && t.buffer[t.misalign..pos] == Bytes(g.cells[..k])
    requires (k < |g.cells| ==> size < g.cells[k].off) && (k == |g.cells| ==> size == 0) && t.off > 0
    requires removedLast <==> k0 <= g.mark < k
    requires removedLastp <==> k0 <= g.mark - 1 < k
    ensures b'.Valid(m', g') && Kept(m, [t] + g.cells[k..], m', g'.cells) && b'.first == tmp
    ensures g'.Contents() == Bytes(g.cells) && |g'.cells| > 0 && g'.cells[0].off == t.off
    ensures g'.cells[0].misalign == t.misalign
    ensures (g.Tight() ==> g'.Tight()) && (g.Packed() ==> g'.Packed())
  {
    hide Bytes, BytesTo, Seg, Sound, Kept, Spare, Addrs, Cell.Data, Cell.Ok, WriteAt;
    ghost var t', rest;
    BytesSplit(g.cells, k);
    SoundSplit(g.cells, k);
    m', t', rest := CopyPart(m, tmp, t, g.cells[k..], chain, size, pos);
    b' := b;
    if chain == NULL {
      if k < |g.cells| { CellOk(g.cells, k); }
      b' := b'.(last := tmp);
    } else {
      assert LastOf([t'] + rest) == LastOf(g.cells);
    }
    ghost var m1 := m';
    m' := m'[tmp := m'[tmp].(next := chain)];
    Relinked(m1, t', rest, m');
    KeptSteps(m, [t] + g.cells[k..], m1, [t'] + rest, m', [t'] + rest);
    g' := Abs([t'] + rest, if g.mark < k then 0 else g.mark - k + 1);
    PulledMark(g, k, t', rest, g');
    if removedLast {
      b' := b'.(lastWithDatap := First);
    } else if removedLastp {
      ChunkAt(m', g'.cells, 0);
      ChunkAt(m', g'.cells, 1);
      if m'[b'.first].next != NULL && m'[m'[b'.first].next].off != 0 {
        b' := b'.(lastWithDatap := NextOf(b'.first));
      } else {
        b' := b'.(lastWithDatap := First);
      }
    }
  }

  lemma WholeData(t: Cell, pos: nat)
    requires t.Ok() && t.misalign <= pos && t.misalign + t.off == pos
    ensures t.Data() == t.buffer[t.misalign..pos]
  {}

  lemma KeptNewFront(m: Memory, cs: seq<Cell>, t: Cell, ch: Chain)
    requires Seg(m, cs, NULL) && t.at !in m
    ensures Kept(m, cs, m[t.at := ch], [t] + cs) && t.at !in Addrs(cs) && Seg(m[t.at := ch], cs, NULL)
  {
    KeptNew(m, cs, NULL, t, ch);
    AddrsJoin([t], cs);
    AddrsJoin(cs, [t]);
  }

  /** The first chunk, made to claim off bytes before they are there. */
  lemma Claimed(m: Memory, cs: seq<Cell>, off: nat, t: Cell)
    requires Seg(m, cs, NULL) && Sound(cs) && |cs| > 0 && t == cs[0].(off := off)
    ensures t.at in m && m[t.at] == Chain(At(cs, 1, NULL), cs[0].misalign, cs[0].off, cs[0].buffer)
    ensures var m' := m[t.at := m[t.at].(off := off)];
      Seg(m', cs[1..], NULL) && t.at !in Addrs(cs[1..]) && Kept(m, cs, m', [t] + cs[1..])
    ensures Bytes(cs[..1]) == cs[0].Data() && cs[0].Ok()
  {
    hide Bytes, BytesTo, Cell.Data;
    assert Stored(m, cs, NULL, 0);
    var m' := m[t.at := m[t.at].(off := off)];
    SegSplit(m, cs, NULL, 1);
    SoundSplit(cs, 1);
    assert cs[..1] == [cs[0]] && cs == [cs[0]] + cs[1..];
    AddrsOne(cs[0]);
    AddrsOne(t);
    AddrsJoin([cs[0]], cs[1..]);
    AddrsJoin([t], cs[1..]);
    SegSame(m, m', cs[1..], NULL);
    SegFind(m, cs, NULL);
    BytesOne(cs[0]);
  }

  /** The part of evbuffer_pullup after tmp has been made to hold n bytes, of which those before pos are there. */
  method PullInto(m: Memory, b: Evbuffer, ghost g: Abs, tmp: Ptr, ghost t: Cell, ghost k0: nat, chain: Ptr, n: nat,
                  misalign: nat, pos: nat)
    returns (m': Memory, b': Evbuffer, ghost g': Abs)
    requires misalign == t.misalign
    requires Marked(g.cells, g.mark) && Sound(g.cells) && 0 < g.mark && k0 <= 1 && k0 < |g.cells|
    requires chain == g.cells[k0].at
    requires b == Evbuffer(tmp, LastOf(g.cells), SlotOf(g.cells, g.mark), |Bytes(g.cells)|) && n <= |Bytes(g.cells)|
    requires Seg(m, g.cells[k0..], NULL) && tmp !in Addrs(g.cells[k0..]) && tmp in m && t == CellOf(tmp, m[tmp])
    requires t.Ok() && t.off == n
    requires if k0 == 1 then tmp == g.cells[0].at && m[tmp].next == chain else g.cells[0].off <= n
    requires t.misalign <= pos <= t.misalign + n && t.buffer[t.misalign..pos] == Bytes(g.cells[..k0])
    requires pos < t.misalign + n
    ensures b'.Valid(m', g') && Kept(m, [t] + g.cells[k0..], m', g'.cells) && g'.Contents() == Bytes(g.cells)
    ensures b'.first == tmp && |g'.cells| > 0 && g'.cells[0].off == n && g'.cells[0].misalign == t.misalign
    ensures (g.Tight() ==> g'.Tight()) && (g.Packed() ==> g'.Packed())
  {
    hide Bytes, BytesTo, Seg, Sound, Kept, Spare, Addrs, Cell.Data, WriteAt;
    ghost var cs := g.cells;
    SoundSplit(cs, k0);
    if g.mark - 1 >= k0 { ChunkAt(m, cs[k0..], g.mark - 1 - k0); }
    var lastWithData := b.Deref(m, b.lastWithDatap);
    ghost var k;
    var chain', size, pos', removedLast, removedLastp;
    m', chain', size, pos', removedLast, removedLastp, k := Gather(m, b, g, tmp, t, k0, chain, n - (pos - misalign),
                                                                   pos, lastWithData);
    ghost var m1, t1 := m', CellOf(tmp, m'[tmp]);
    BytesNone();
    assert k == |cs| ==> cs[..k] == cs;
    assert |Bytes(cs[..k])| == pos' - misalign;
    m', b', g' := Finish(m', b, g, tmp, t1, k0, k, chain', size, pos', removedLast, removedLastp);
    KeptRenamed(m, [t] + cs[k0..], m1, t, t1, cs[k..]);
    KeptSteps(m, [t] + cs[k0..], m1, [t1] + cs[k..], m', g'.cells);
  }

  lemma KeptRenamed(m: Memory, a: seq<Cell>, m': Memory, t: Cell, t': Cell, b: seq<Cell>)
    requires Kept(m, a, m', [t] + b) && t.at == t'.at
    ensures Kept(m, a, m', [t'] + b)
  {
    AddrsJoin([t], b);
    AddrsJoin([t'], b);
    AddrsOne(t);
    AddrsOne(t');
  }

  /** A first chunk with at least n bytes has the first n bytes of the buffer, in a row. */
  lemma FirstHas(m: Memory, b: Evbuffer, g: Abs, n: nat)
    requires b.Valid(m, g) && |g.cells| > 0 && n <= g.cells[0].off
    ensures b.first in m && m[b.first].misalign == g.cells[0].misalign
    ensures g.cells[0].misalign + n <= |m[b.first].buffer| && n <= |g.Contents()| && n <= CHAIN_MAX - CHAIN_SIZE
    ensures m[b.first].buffer[g.cells[0].misalign..g.cells[0].misalign + n] == g.Contents()[..n]
  {
    hide Bytes, BytesTo, Seg, Sound, Marked;
    ChunkAt(m, g.cells, 0);
    var ch := m[b.first];
    SmallChunk(g.cells[0]);
    BytesFirst(g.cells);
    DataOf(g.cells[0], ch);
    assert ch.buffer[ch.misalign..ch.misalign + n] == g.cells[0].Data()[..n];
    assert (g.cells[0].Data() + Bytes(g.cells[1..]))[..n] == g.cells[0].Data()[..n];
  }

  /** Pulling up into a chunk of its own. */
  method PullNew(m: Memory, b: Evbuffer, ghost g: Abs, n: nat)
    returns (ok: bool, m': Memory, b': Evbuffer, ghost g': Abs)
    requires b.Valid(m, g) && 0 < g.mark && g.cells[0].off < n <= |Bytes(g.cells)|
    ensures b'.Valid(m', g') && Kept(m, g.cells, m', g'.cells) && g'.Contents() == g.Contents()
    ensures ok <==> n <= CHAIN_MAX - CHAIN_SIZE
    ensures if ok then |g'.cells| > 0 && g'.cells[0].off == n else m' == m && b' == b
    ensures (g.Tight() ==> g'.Tight()) && (g.Packed() ==> g'.Packed())
  {
    hide Bytes, BytesTo, Seg, Sound, Kept, Spare, Addrs, Cell.Data, WriteAt;
    ok, m', b', g' := true, m, b, g;
    ghost var cs := g.cells;
    KeptAll(m, cs, NULL);
    var tmp; ghost var c;
    m', tmp, c := ChainNew(m, n);
    if tmp == NULL {
      ok := false;
      return;
    }
    m' := m'[tmp := m'[tmp].(off := n)];
    b' := b.(first := tmp);
    ghost var t, m1 := CellOf(tmp, m'[tmp]), m';
    assert m' == m[tmp := m'[tmp]];
    KeptNewFront(m, cs, t, m'[tmp]);
    BytesNone();
    assert cs[..0] == [] && cs[0..] == cs;
    m', b', g' := PullInto(m', b', g, tmp, t, 0, b.first, n, 0, 0);
    KeptSteps(m, cs, m1, [t] + cs, m', g'.cells);
  }

  /** evbuffer_pullup */
  method Pullup(m: Memory, b: Evbuffer, ghost g: Abs, size: int)
    returns (r: Pulled, m': Memory, b': Evbuffer, ghost g': Abs)
    requires b.Valid(m, g)
    ensures b'.Valid(m', g') && Kept(m, g.cells, m', g'.cells) && g'.Contents() == g.Contents()
    ensures (g.Tight() ==> g'.Tight()) && (g.Packed() ==> g'.Packed())
    ensures r.Nothing? ==> m' == m && b' == b
    ensures var n := if size < 0 then |g.Contents()| else size;
      && (r.Within? <==> 0 < n <= |g.Contents()| && n <= CHAIN_MAX - CHAIN_SIZE)
      && (r.Within? ==>
          r.chain in m' && r.pos + n <= |m'[r.chain].buffer| &&
          m'[r.chain].buffer[r.pos..r.pos + n] == g.Contents()[..n])
  {
    hide Bytes, BytesTo, Seg, Sound, Kept, Spare, Addrs, Cell.Data, WriteAt, Marked;
    r, m', b', g' := Nothing, m, b, g;
    KeptAll(m, g.cells, NULL);
    var n := if size < 0 then b.totalLen else size;
    if n == 0 || n > b.totalLen {
      return;
    }
    ghost var cs := g.cells;
    BytesNone();
    assert |cs| == 0 ==> cs == [];
    ChunkAt(m, cs, 0);
    DataOf(cs[0], m[b.first]);
    var chain := b.first;
    var ch := m[chain];
    if ch.off < n {
      MarkHasData(g);
      PastMark(cs, g.mark);
      assert cs[0..] == cs;
      if |ch.buffer| - ch.misalign >= n {
        ghost var t := cs[0].(off := n);
        Claimed(m, cs, n, t);
        m' := m[chain := ch.(off := n)];
        ghost var m1 := m';
        m', b', g' := PullInto(m', b, g, chain, t, 1, ch.next, n, ch.misalign, ch.misalign + ch.off);
        KeptSteps(m, cs, m1, [t] + cs[1..], m', g'.cells);
      } else {
        var ok;
        ok, m', b', g' := PullNew(m, b, g, n);
        if !ok {
          return;
        }
      }
    }
    FirstHas(m', b', g', n);
    r := Within(b'.first, m'[b'.first].misalign);
  }
}
