/**
 Runs of public calls after which last_with_datap is not where the chunks say.  No list of chunks makes such a
 buffer Valid; and bytes written to it by evbuffer_reserve_space and evbuffer_commit_space can come before
 bytes that were added to it earlier.
 */
module EvbufferLimits {
  import opened Basics
  import opened Chunks
  import opened Evbuffers
  import opened EvbufferSplice
  import opened EvbufferReserve
  import opened EvbufferCommit

  /** Memory holds one list of chunks at a buffer's first, whichever way it is told. */
  lemma {:induction false} SameFrom(m: Memory, a: seq<Cell>, b: seq<Cell>, n: nat)
    requires Seg(m, a, NULL) && Seg(m, b, NULL) && Sound(a) && Sound(b) && At(a, 0, NULL) == At(b, 0, NULL) && n <= |a|
    ensures n <= |b| && a[..n] == b[..n] && At(a, n, NULL) == At(b, n, NULL)
  {
    if n > 0 {
      SameFrom(m, a, b, n - 1);
      ChunkAt(m, a, n - 1);
      if n - 1 < |b| { ChunkAt(m, b, n - 1); }
    }
  }

  lemma ListedOnce(m: Memory, b: Evbuffer, cs: seq<Cell>, cs': seq<Cell>)
    requires b.Listed(m, cs) && b.Listed(m, cs')
    ensures cs == cs'
  {
    hide Seg, Sound, Bytes, BytesTo;
    SameFrom(m, cs, cs', |cs|);
    SameFrom(m, cs', cs, |cs'|);
  }

  lemma SlotOnce(cs: seq<Cell>, i: nat, j: nat)
    requires Sound(cs) && SlotOf(cs, i) == SlotOf(cs, j) && i < |cs| && j < |cs|
    ensures i == j
  {}

  /** A buffer whose last_with_datap leads to the wrong chunk is not Valid in any other way either. */
  lemma NeverValid(m: Memory, b: Evbuffer, g: Abs)
    requires b.Pointed(m, g) && !b.Valid(m, g)
    ensures forall g2 :: !b.Valid(m, g2)
  {
    hide Seg, Sound, Bytes, BytesTo;
    forall g2 ensures !b.Valid(m, g2) {
      if b.Valid(m, g2) {
        ListedOnce(m, b, g.cells, g2.cells);
        if |g.cells| > 0 { SlotOnce(g.cells, g.mark, g2.mark); }
      }
    }
  }

  // ----- evbuffer_add after evbuffer_expand

  /**
   An empty chunk behind the one with data: evbuffer_add leaves last_with_datap behind if the data fits
   there, and fills it up otherwise.
   */
  lemma FatesOfSpare(g: Abs, len: nat)
    requires |g.cells| == 2 && g.mark == 0 && g.cells[0].off > 0 && len > 0
    requires var s := g.cells[1]; s.off == 0 && s.misalign == 0 && s.buffer != []
    ensures AddFate(g, len) == if len <= g.cells[1].SpaceLen() then Behind else Intact
  {
    VictimIs(g.cells, 0, 1);
  }

  /** With two empty chunks behind, the second one filled up makes evbuffer_chain_insert stop at an assertion. */
  lemma FatesOfTwoSpare(g: Abs, len: nat)
    requires |g.cells| == 3 && g.mark == 0 && g.cells[0].off > 0 && g.cells[1].off == 0 && len > 0
    requires var s := g.cells[2]; s.off == 0 && s.misalign == 0 && s.buffer != []
    ensures AddFate(g, len) == if len <= g.cells[2].SpaceLen() then Behind else Aborted
  {
    VictimIs(g.cells, 0, 1);
  }

  /** The chunk that evbuffer_expand puts behind a full one takes data, with last_with_datap left behind. */
  lemma FateAfterExpand(g: Abs, g': Abs, len: nat, result: Ptr, r: nat)
    requires |g.cells| > 0 && g.mark == |g.cells| - 1 && g.cells[g.mark].off > 0 && g.cells[g.mark].SpaceLen() == 0
    requires |g'.cells| > 0 && g'.cells[|g'.cells| - 1].off == 0 && g' == Inserted(g, g'.cells[|g'.cells| - 1])
    requires Found(g, g', len, result, r) && len > 0
    ensures g'.mark < |g'.cells| && AddFate(g', len) == Behind
  {
    VictimIs(g.cells, g.mark, |g.cells|);
    assert g'.cells[g.mark] == g.cells[g.mark];
  }

  /**
   evbuffer_expand for the bytes that evbuffer_add is then called with, on a Tight buffer whose last chunk is
   full: the bytes are added, and last_with_datap is wrong.
   */
  method ExpandThenAdd(m: Memory, b: Evbuffer, ghost g: Abs, data: seq<byte>)
    returns (m': Memory, b': Evbuffer, ghost g': Abs)
    requires b.Valid(m, g) && |g.cells| > 0 && g.mark == |g.cells| - 1
    requires g.cells[g.mark].off > 0 && g.cells[g.mark].SpaceLen() == 0
    requires 0 < |data| <= SIZE_MAX - b.totalLen && |data| <= CHAIN_MAX - MAX_TO_COPY_IN_EXPAND
    ensures b'.Pointed(m', g') && g'.Contents() == g.Contents() + data
    ensures forall g2 :: !b'.Valid(m', g2)
  {
    hide Bytes, BytesTo, Seg, Sound, Kept, Spare, Addrs, Cell.Data, Cell.Ok, Marked, AddFate, VictimAt, Inserted, Skips,
      Found;
    var e, result; ghost var r;
    e, result, m', b', g', r := ExpandSinglechain(m, b, g, |data|);
    FateAfterExpand(g, g', |data|, result, r);
    ValidIs(m', b', g');
    var added;
    added, m', b', g' := AddAnywhere(m', b', g', data);
    NeverValid(m', b', g');
  }

  // ----- evbuffer_reserve_space and evbuffer_commit_space after that

  /** The bytes added to the last chunk are those behind the chunks up to the marked one. */
  lemma BehindSplit(g: Abs, g1: Abs, first: seq<byte>, second: seq<byte>)
    requires Marked(g.cells, g.mark) && |g.cells| == g.mark + 2 && SameButLast(g, g1)
    requires g1.Contents() == g.Contents() + first
    ensures PutAfter(g1.cells, g.mark + 1, second) == g.Contents() + second + first
  {
    hide Bytes, BytesTo, Marked;
    var k := g.mark + 1;
    SpareLast(g);
    BytesSplit(g.cells, k);
    BytesSplit(g1.cells, k);
    assert g1.cells[..k] == g.cells[..k];
    BytesSpare(g.cells[k..]);
    var x, y := Bytes(g.cells[..k]), Bytes(g1.cells[k..]);
    assert g.Contents() == x + [] == x;
    assert x + y == x + first && (x + y)[|x|..] == y && (x + first)[|x|..] == first;
  }

  lemma SpareLast(g: Abs)
    requires Marked(g.cells, g.mark) && |g.cells| == g.mark + 2
    ensures Spare(g.cells[g.mark + 1..])
  {}

  /**
   With an empty chunk behind the last one with data, as evbuffer_expand leaves it: bytes added to it by
   evbuffer_add, and then others written to the buffer by evbuffer_reserve_space and evbuffer_commit_space,
   for which there is space in the chunk before, come out the other way round.
   */
  method AddThenWrite(m: Memory, b: Evbuffer, ghost g: Abs, first: seq<byte>, second: seq<byte>)
    returns (m': Memory, b': Evbuffer, ghost g': Abs)
    requires b.Valid(m, g) && |g.cells| == g.mark + 2 && FitsIn(g.cells[g.mark + 1], |first|)
    requires |first| <= SIZE_MAX - b.totalLen && |first| <= CHAIN_MAX - CHAIN_SIZE
    requires 0 < |second| <= g.cells[g.mark].SpaceLen() && |second| <= SSIZE_MAX
    ensures b'.Pointed(m', g') && g'.Contents() == g.Contents() + second + first
  {
    hide Bytes, BytesTo, Seg, Sound, Kept, Spare, Addrs, Cell.Data, Cell.Ok, Marked, FitsIn, VictimAt, Skips, PutAfter,
      Abs.Contents;
    ValidIs(m, b, g);
    AddedBehind(g, |first|);
    var added, ok; ghost var g1;
    added, m', b', g1 := AddAnywhere(m, b, g, first);
    BehindSplit(g, g1, first, second);
    ok, m', b', g' := ReserveWriteCommit(m', b', g1, |second|, 1, second);
  }

  /** evbuffer_add into the chunk behind the marked one does not fail an assertion. */
  lemma AddedBehind(g: Abs, len: nat)
    requires |g.cells| == g.mark + 2 && FitsIn(g.cells[g.mark + 1], len)
    ensures AddFate(g, len) != Aborted
  {}

  // ----- evbuffer_commit_space, and evbuffer_remove_buffer after it

  /**
   A single iovec committed in the last of several empty chunks: the bytes are added, and last_with_datap is
   wrong.
   */
  method CommitFar(m: Memory, b: Evbuffer, ghost g: Abs, v: Vec) returns (m': Memory, b': Evbuffer, ghost g': Abs)
    requires b.Valid(m, g) && |g.cells| > g.mark + 2 && InSpace(g.cells[|g.cells| - 1], v) && v.len > 0
    ensures b'.Pointed(m', g') && g'.Contents() == g.Contents() + Covered(m, [v])
    ensures forall g2 :: !b'.Valid(m', g2)
  {
    hide Bytes, BytesTo, Seg, Sound, Kept, Spare, Addrs, Cell.Data, Cell.Ok, Marked, Covered, Abs.Contents;
    var ok;
    ok, m', b', g' := CommitSpace(m, b, g, [v]);
    NeverValid(m', b', g');
  }

  /** A commit of nothing in the first chunk of an empty buffer, and of len bytes in the second one. */
  lemma SecondCommitted(g: Abs, vecs: seq<Vec>, g': Abs)
    requires |g.cells| >= 2 && Spare(g.cells) && |vecs| == 2 && vecs[0].len == 0 < vecs[1].len
    requires g'.cells == Advanced(g.cells, 0, vecs) && Marked(g'.cells, g'.mark)
    ensures g'.mark == 1 && DataAfterSpare(g') && g'.cells[0].off == 0 && g'.cells[1].off == vecs[1].len
    ensures forall d: nat :: 0 < d < vecs[1].len ==> Whole(g'.cells, 0, d) == (1, d)
  {
    assert vecs[..1][..0] == [] && vecs[..1][0] == vecs[0];
    AdvancedNone(g.cells, 0);
    assert Advanced(g.cells, 0, vecs[..1]) == g.cells[0 := g.cells[0]];
    assert g'.cells[1].off > 0;
    forall d: nat | 0 < d < vecs[1].len ensures Whole(g'.cells, 0, d) == (1, d) {
      assert Whole(g'.cells, 1, d) == (1, d);
    }
  }

  /**
   Space reserved in two chunks of an empty buffer, of which only the second is used, and then part of the
   bytes moved to another buffer by evbuffer_remove_buffer: both buffers have the right bytes, and
   last_with_datap of the source is wrong.
   */
  method CommitThenRemove(m: Memory, b: Evbuffer, ghost g: Abs, len: nat, datlen: nat)
    returns (m': Memory, src': Evbuffer, ghost gs': Abs, dst': Evbuffer, ghost gd': Abs)
    requires b.Valid(m, g) && |g.cells| >= 2 && Spare(g.cells) && g.cells[0].SpaceLen() > 0
    requires 0 < datlen < len <= g.cells[1].SpaceLen()
    ensures src'.Pointed(m', gs') && |gs'.Contents()| == len - datlen
    ensures dst'.Valid(m', gd') && |gd'.Contents()| == datlen
    ensures forall g2 :: !src'.Valid(m', g2)
  {
    hide Bytes, BytesTo, Seg, Sound, Kept, Addrs, Cell.Data, Cell.Ok, Marked, Covered, CoveredBy, Advanced, Whole,
      DataAfterSpare;
    MarkedSpare(g);
    BytesSpare(g.cells);
    ChunkAt(m, g.cells, 0);
    ChunkAt(m, g.cells, 1);
    SmallChunk(g.cells[1]);
    var p, q := b.first, m[b.first].next;
    var vecs := [Vec(p, m[p].misalign, 0), Vec(q, m[q].misalign, len)];
    var ok, b1; ghost var g1;
    ok, m', b1, g1 := CommitSpace(m, b, g, vecs);
    ValidIs(m', b1, g1);
    SecondCommitted(g, vecs, g1);
    EmptyValid(m');
    NoAddrs(g1.cells);
    TwoCovered(m, g.cells, vecs);
    var aborted, n;
    ghost var gd := Abs([], 0);
    aborted, n, m', src', gs', dst', gd' := RemoveBuffer(m', b1, g1, EMPTY, gd, datlen);
    NeverValid(m', src', gs');
  }

  lemma MarkedSpare(g: Abs)
    requires Marked(g.cells, g.mark) && Spare(g.cells)
    ensures g.mark == 0
  {}

  lemma TwoCovered(m: Memory, cs: seq<Cell>, vecs: seq<Vec>)
    requires Offered(cs, 0, vecs) && |vecs| == 2 && Seg(m, cs, NULL) && Sound(cs)
    ensures |Covered(m, vecs)| == vecs[0].len + vecs[1].len
  {
    ChunkAt(m, cs, 0);
    ChunkAt(m, cs, 1);
    assert InSpace(cs[0], vecs[0]) && InSpace(cs[1], vecs[1]);
    assert vecs[..1] == [vecs[0]] && [vecs[0]][..0] == [];
    assert Covered(m, []) == [];
    assert Covered(m, vecs[..1]) == CoveredBy(m, vecs[0]);
  }

  // ----- each of these in one buffer

  /** The room of the smallest chunk, and its bytes. */
  const ROOM: nat := MIN_BUFFER_SIZE - CHAIN_SIZE

  function Zeros(): (s: seq<byte>)
    ensures |s| == ROOM
  {
    seq(ROOM, _ => 0)
  }

  /** One full chunk, as after evbuffer_add of ROOM bytes. */
  ghost const FULL := Abs([Cell(1, 0, ROOM, Zeros())], 0)

  lemma FullValid()
    ensures Evbuffer(1, 1, First, ROOM).Valid(map[1 := Chain(NULL, 0, ROOM, Zeros())], FULL)
  {
    hide Bytes, BytesTo;
    BytesOne(FULL.cells[0]);
  }

  /**
   off bytes in one chunk, and two empty chunks behind, as evbuffer_reserve_space makes them for two iovecs
   and then for three.
   */
  ghost function Three(off: nat): (g: Abs)
    requires off <= ROOM
  {
    Abs([Cell(1, 0, off, Zeros()), Cell(2, 0, 0, Zeros()), Cell(3, 0, 0, Zeros())], 0)
  }

  function ThreeChunks(off: nat): (m: Memory)
  {
    map[1 := Chain(2, 0, off, Zeros()), 2 := Chain(3, 0, 0, Zeros()), 3 := Chain(NULL, 0, 0, Zeros())]
  }

  lemma ThreeValid(off: nat)
    requires off <= ROOM
    ensures Evbuffer(1, 3, First, off).Valid(ThreeChunks(off), Three(off)) && |Three(off).Contents()| == off
  {
    hide Bytes, BytesTo;
    var cs := Three(off).cells;
    BytesFirst(cs);
    BytesSpare(cs[1..]);
  }

  /** A full chunk, evbuffer_expand(1) and evbuffer_add of one byte. */
  method AddAfterExpand() returns (m: Memory, b: Evbuffer, ghost g: Abs)
    ensures b.Pointed(m, g) && |g.Contents()| == ROOM + 1
    ensures forall g2 :: !b.Valid(m, g2)
  {
    hide Seg, Sound, Bytes, BytesTo, Marked;
    FullValid();
    m, b, g := ExpandThenAdd(map[1 := Chain(NULL, 0, ROOM, Zeros())], Evbuffer(1, 1, First, ROOM), FULL, [0]);
  }

  /** 600 bytes in the first of two chunks, as evbuffer_expand(500) leaves them. */
  ghost const TWO := Abs([Cell(1, 0, 600, Zeros()), Cell(2, 0, 0, Zeros())], 0)

  lemma TwoValid()
    ensures Evbuffer(1, 2, First, 600).Valid(map[1 := Chain(2, 0, 600, Zeros()), 2 := Chain(NULL, 0, 0, Zeros())], TWO)
    ensures |TWO.Contents()| == 600
  {
    hide Bytes, BytesTo;
    BytesFirst(TWO.cells);
    BytesSpare(TWO.cells[1..]);
  }

  /** Two bytes added to them, and then one written: the one comes before the two. */
  method OutOfOrder() returns (m: Memory, b: Evbuffer, ghost g: Abs)
    ensures b.Pointed(m, g) && |g.Contents()| == 603 && g.Contents()[600..] == [3, 1, 2]
  {
    hide Seg, Sound, Bytes, BytesTo, Marked;
    TwoValid();
    var chunks := map[1 := Chain(2, 0, 600, Zeros()), 2 := Chain(NULL, 0, 0, Zeros())];
    m, b, g := AddThenWrite(chunks, Evbuffer(1, 2, First, 600), TWO, [1, 2], [3]);
    assert TWO.Contents() + [3] + [1, 2] == TWO.Contents() + [3, 1, 2];
  }

  /** One byte committed in the third chunk only. */
  method CommitInThird() returns (m: Memory, b: Evbuffer, ghost g: Abs)
    ensures b.Pointed(m, g) && |g.Contents()| == 10 + 1
    ensures forall g2 :: !b.Valid(m, g2)
  {
    hide Seg, Sound, Bytes, BytesTo, Marked;
    ThreeValid(10);
    m, b, g := CommitFar(ThreeChunks(10), Evbuffer(1, 3, First, 10), Three(10), Vec(3, 0, 1));
    assert Covered(ThreeChunks(10), [Vec(3, 0, 1)][..0]) == [];
  }

  /** Ten bytes committed in the second chunk only, and five of them moved to a new buffer. */
  method RemoveFromSecond() returns (m: Memory, src: Evbuffer, ghost gs: Abs, dst: Evbuffer, ghost gd: Abs)
    ensures src.Pointed(m, gs) && |gs.Contents()| == 5 && dst.Valid(m, gd) && |gd.Contents()| == 5
    ensures forall g2 :: !src.Valid(m, g2)
  {
    hide Seg, Sound, Bytes, BytesTo, Marked;
    ThreeValid(0);
    m, src, gs, dst, gd := CommitThenRemove(ThreeChunks(0), Evbuffer(1, 3, First, 0), Three(0), 10, 5);
  }

  /** 500 bytes reserved in one iovec behind 600 others are written, and then refused by evbuffer_commit_space. */
  method OneVecRefused(data: seq<byte>) returns (ok: bool, m: Memory, b: Evbuffer, ghost g: Abs)
    requires |data| == 500
    ensures Skips(Three(600), 500)
    ensures !ok && b.Valid(m, g) && g.Contents() == Three(600).Contents()
  {
    hide Seg, Sound, Bytes, BytesTo, Marked;
    ThreeValid(600);
    ok, m, b, g := ReserveWriteCommit(ThreeChunks(600), Evbuffer(1, 3, First, 600), Three(600), 500, 1, data);
  }
}
