/** The check that the regression tests make of a buffer after each operation. */
module EvbufferValidate {
  import opened Basics
  import opened Chunks
  import opened Evbuffers

  /** No bytes, no data in any chunk. */
  lemma NoBytes(cs: seq<Cell>)
    requires Sound(cs)
    ensures Bytes(cs) == [] <==> Spare(cs)
    ensures forall i :: 0 <= i < |cs| ==> |Bytes(cs)| >= cs[i].off
  {
    hide Bytes, BytesTo, Cell.Data;
    forall i | 0 <= i < |cs| ensures |Bytes(cs)| >= cs[i].off {
      BytesAt(cs, i);
      CellOk(cs, i);
    }
    if Spare(cs) { BytesSpare(cs); }
  }

  /** The bytes of one chunk more. */
  lemma OneMore(cs: seq<Cell>, k: nat)
    requires Sound(cs) && k < |cs|
    ensures |Bytes(cs[..k + 1])| == |Bytes(cs[..k])| + cs[k].off
  {
    hide Bytes, BytesTo, Cell.Data, Cell.Ok;
    CellOk(cs, k);
    BytesPush(cs[..k], cs[k]);
    assert cs[..k + 1] == cs[..k] + [cs[k]];
  }

  /** The first loop: whether the chunks add up, and whether one of their next-fields is last_with_datap. */
  method Walk(m: Memory, b: Evbuffer, ghost g: Abs) returns (ok: bool)
    requires b.Pointed(m, g)
    ensures ok
  {
    hide Bytes, BytesTo, Seg, Sound, Cell.Data, Cell.Ok;
    ghost var cs, k := g.cells, 0;
    BytesNone();
    assert cs[..0] == [] && cs[..|cs|] == cs;
    ok := b.first != NULL || (b.last == NULL && b.totalLen == 0);
    var chain, sum, found := b.first, 0, b.lastWithDatap.First?;
    if |cs| > 0 { ChunkAt(m, cs, 0); }
    while chain != NULL
      invariant k <= |cs| && chain == At(cs, k, NULL) && sum == |Bytes(cs[..k])|
      invariant k < |cs| ==> chain != NULL && chain in m
      invariant ok && (found <==> g.mark <= k)
      decreases |cs| - k
    {
      ChunkAt(m, cs, k);
      SlotNext(cs, g.mark, k);
      OneMore(cs, k);
      if b.lastWithDatap == NextOf(chain) {
        found := true;
      }
      sum := sum + m[chain].off;
      ok := ok && (m[chain].next != NULL || b.last == chain) && |m[chain].buffer| >= m[chain].misalign + m[chain].off;
      chain := m[chain].next;
      k := k + 1;
      if k < |cs| { ChunkAt(m, cs, k); }
    }
    ok := ok && found && sum == b.totalLen;
  }

  /** The next-field of chunk k is last_with_datap exactly if chunk k + 1 is marked. */
  lemma SlotNext(cs: seq<Cell>, mark: nat, k: nat)
    requires Sound(cs) && k < |cs| && mark < |cs|
    ensures SlotOf(cs, mark) == NextOf(cs[k].at) <==> mark == k + 1
    ensures cs[k].Ok()
  {}

  /** Whether a buffer looks as it should, when what its last_with_datap leads to has been looked at. */
  lemma MarkSeen(g: Abs, total: nat, ok: bool)
    requires Sound(g.cells) && g.mark < |g.cells| && total == |Bytes(g.cells)|
    requires var off := g.cells[g.mark].off;
      ok <==> (off == 0 || total == 0 ==> off == 0 && g.mark == 0 && total == 0) && Spare(g.cells[g.mark + 1..])
    ensures ok <==> Marked(g.cells, g.mark)
  {
    hide Bytes, BytesTo, Cell.Ok;
    var cs, rest := g.cells, g.cells[g.mark + 1..];
    NoBytes(cs);
    assert forall i :: 0 <= i < |rest| ==> rest[i] == cs[g.mark + 1 + i];
  }

  /**
   _evbuffer_validate of the regression tests, on a buffer whose last_with_datap leads to one of its chunks:
   it says no exactly if that is the wrong one.
   */
  method Validate(m: Memory, b: Evbuffer, ghost g: Abs) returns (ok: bool)
    requires b.Pointed(m, g)
    ensures ok <==> b.Valid(m, g)
  {
    hide Bytes, BytesTo, Seg, Sound, Spare, Cell.Data, Cell.Ok, Marked;
    ValidIs(m, b, g);
    ok := Walk(m, b, g);
    ghost var cs := g.cells;
    DerefAt(m, b, cs, g.mark);
    var chain := b.Deref(m, b.lastWithDatap);
    if |cs| > 0 { ChunkAt(m, cs, g.mark); }
    ok := ok && (b.first != NULL ==> chain != NULL);
    if chain != NULL {
      FirstOnly(cs, g.mark);
      if m[chain].off == 0 || b.totalLen == 0 {
        ok := ok && m[chain].off == 0 && chain == b.first && b.totalLen == 0;
      }
      SegSplit(m, cs, NULL, g.mark + 1);
      SoundSplit(cs, g.mark + 1);
      var empty := AllEmpty(m, m[chain].next, cs[g.mark + 1..]);
      ok := ok && empty;
      MarkSeen(g, b.totalLen, ok);
    } else {
      ok := ok && b.lastWithDatap.First?;
      NothingMarked(g);
    }
  }

  lemma FirstOnly(cs: seq<Cell>, k: nat)
    requires Sound(cs) && k < |cs|
    ensures cs[k].at == cs[0].at <==> k == 0
  {}

  lemma NothingMarked(g: Abs)
    requires g.mark == |g.cells| == 0
    ensures Marked(g.cells, g.mark)
  {}
}
