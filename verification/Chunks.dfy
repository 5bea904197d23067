/**
 The memory an evbuffer lives in: chunk headers (struct evbuffer_chain) at
 addresses, each with its own run of bytes, and the lists of chunks found by
 following next-fields through that memory.
 */
module Chunks {
  import opened Basics

  const SIZE_MAX: nat := 0xFFFF_FFFF_FFFF_FFFF
  const CHAIN_MAX: nat := 0x7FFF_FFFF_FFFF_FFFF
  const CHAIN_SIZE: nat := 48
  const MIN_BUFFER_SIZE: nat := 1024

  /** A chunk header; |buffer| is buffer_len, and buffer holds the bytes that follow the header. */
  datatype Chain = Chain(next: Ptr, misalign: nat, off: nat, buffer: seq<byte>) {
    /** CHAIN_SPACE_LEN for a mutable chunk */
    function SpaceLen(): (n: int) {
      |buffer| - (misalign + off)
    }
  }

  /** Allocated chunks by address: a freed chunk is no longer a key, so reading one does not verify. */
  type Memory = map<Ptr, Chain>

  /** What the model knows about one chunk of a list: where it is, and all of it but its next-field. */
  datatype Cell = Cell(at: Ptr, misalign: nat, off: nat, buffer: seq<byte>) {
    ghost predicate Ok() {
      at != NULL && buffer != [] && misalign + off <= |buffer| <= CHAIN_MAX - CHAIN_SIZE
    }

    ghost function Data(): (s: seq<byte>) {
      if misalign + off <= |buffer| then buffer[misalign..misalign + off] else []
    }

    function SpaceLen(): (n: int) {
      |buffer| - (misalign + off)
    }
  }

  // ----- the bytes of a list of chunks

  ghost function BytesTo(cs: seq<Cell>, n: nat): (s: seq<byte>)
    requires n <= |cs|
  {
    if n == 0 then [] else BytesTo(cs, n - 1) + cs[n - 1].Data()
  }

  /** The byte string that a list of chunks holds. */
  ghost function Bytes(cs: seq<Cell>): (s: seq<byte>)
  {
    BytesTo(cs, |cs|)
  }

  lemma {:induction false} BytesToSame(a: seq<Cell>, b: seq<Cell>, n: nat)
    requires n <= |a| && n <= |b|
    requires forall i :: 0 <= i < n ==> a[i].Data() == b[i].Data()
    ensures BytesTo(a, n) == BytesTo(b, n)
  {
    hide Cell.Data;
    if n > 0 {
      BytesToSame(a, b, n - 1);
    }
  }

  lemma {:induction false} BytesToConcat(a: seq<Cell>, b: seq<Cell>, n: nat)
    requires n <= |b|
    ensures BytesTo(a + b, |a| + n) == Bytes(a) + BytesTo(b, n)
  {
    hide Cell.Data;
    if n == 0 {
      BytesToSame(a + b, a, |a|);
    } else {
      BytesToConcat(a, b, n - 1);
      var x, y, d := Bytes(a), BytesTo(b, n - 1), b[n - 1].Data();
      assert (a + b)[|a| + n - 1] == b[n - 1];
      assert (x + y) + d == x + (y + d);
    }
  }

  lemma BytesConcat(a: seq<Cell>, b: seq<Cell>)
    ensures Bytes(a + b) == Bytes(a) + Bytes(b)
  {
    hide Cell.Data;
    BytesToConcat(a, b, |b|);
  }

  lemma BytesNone()
    ensures Bytes([]) == []
  {}

  lemma BytesOne(c: Cell)
    ensures Bytes([c]) == c.Data()
  {
    assert BytesTo([c], 0) == [];
  }

  lemma BytesSplit(cs: seq<Cell>, k: nat)
    requires k <= |cs|
    ensures Bytes(cs) == Bytes(cs[..k]) + Bytes(cs[k..])
  {
    hide Cell.Data;
    assert cs == cs[..k] + cs[k..];
    BytesConcat(cs[..k], cs[k..]);
  }

  /** Chunk k's bytes sit between those of the chunks before it and those of the chunks after it. */
  lemma BytesAt(cs: seq<Cell>, k: nat)
    requires k < |cs|
    ensures Bytes(cs) == Bytes(cs[..k]) + cs[k].Data() + Bytes(cs[k + 1..])
  {
    hide Cell.Data;
    BytesSplit(cs, k);
    BytesSplit(cs[k..], 1);
    assert cs[k..][..1] == [cs[k]] && cs[k..][1..] == cs[k + 1..];
    BytesOne(cs[k]);
  }

  lemma BytesFirst(cs: seq<Cell>)
    requires |cs| > 0
    ensures Bytes(cs) == cs[0].Data() + Bytes(cs[1..])
  {
    hide Cell.Data;
    BytesAt(cs, 0);
    BytesNone();
    assert cs[..0] == [];
  }

  lemma BytesLast(cs: seq<Cell>)
    requires |cs| > 0
    ensures Bytes(cs) == Bytes(cs[..|cs| - 1]) + cs[|cs| - 1].Data()
  {
    hide Cell.Data;
    BytesAt(cs, |cs| - 1);
    BytesNone();
    assert cs[|cs|..] == [];
  }

  lemma BytesUpdate(cs: seq<Cell>, k: nat, c: Cell)
    requires k < |cs|
    ensures Bytes(cs[k := c]) == Bytes(cs[..k]) + c.Data() + Bytes(cs[k + 1..])
  {
    hide Cell.Data;
    BytesAt(cs[k := c], k);
    assert cs[k := c][..k] == cs[..k];
    assert cs[k := c][k + 1..] == cs[k + 1..];
  }

  ghost predicate Spare(cs: seq<Cell>)
  {
    forall i :: 0 <= i < |cs| ==> cs[i].off == 0
  }

  lemma SpareData(c: Cell)
    requires c.off == 0
    ensures c.Data() == []
  {}

  lemma {:induction false} BytesToSpare(cs: seq<Cell>, n: nat)
    requires n <= |cs| && Spare(cs)
    ensures BytesTo(cs, n) == []
  {
    hide Cell.Data;
    if n > 0 {
      SpareData(cs[n - 1]);
      BytesToSpare(cs, n - 1);
    }
  }

  lemma BytesSpare(cs: seq<Cell>)
    requires Spare(cs)
    ensures Bytes(cs) == []
  {
    BytesToSpare(cs, |cs|);
  }

  /** Dropping spare chunks from the end does not change the bytes. */
  lemma BytesTrim(cs: seq<Cell>, j: nat)
    requires j <= |cs| && Spare(cs[j..])
    ensures Bytes(cs[..j]) == Bytes(cs)
  {
    hide Cell.Data;
    BytesSplit(cs, j);
    BytesSpare(cs[j..]);
  }

  lemma BytesPush(cs: seq<Cell>, c: Cell)
    ensures Bytes(cs + [c]) == Bytes(cs) + c.Data()
  {
    hide Cell.Data;
    BytesConcat(cs, [c]);
    BytesOne(c);
  }

  /** A sound list with no bytes has only spare chunks. */
  lemma {:induction false} NoBytesSpare(cs: seq<Cell>)
    requires AllOk(cs) && Bytes(cs) == []
    ensures Spare(cs)
  {
    hide Cell.Data, Cell.Ok, Bytes, Spare, AllOk;
    if cs != [] {
      BytesLast(cs);
      OkParts(cs);
      assert Bytes(cs[..|cs| - 1]) == [];
      NoBytesSpare(cs[..|cs| - 1]);
      NoData(cs[|cs| - 1]);
      SpareNext(cs);
    } else {
      SpareNone();
    }
  }

  lemma OkParts(cs: seq<Cell>)
    requires AllOk(cs) && cs != []
    ensures AllOk(cs[..|cs| - 1]) && cs[|cs| - 1].Ok()
  {
    hide Cell.Ok;
  }

  lemma NoData(c: Cell)
    requires c.Ok() && c.Data() == []
    ensures c.off == 0
  {}

  lemma SpareNone()
    ensures Spare([])
  {}

  lemma SpareNext(cs: seq<Cell>)
    requires cs != [] && Spare(cs[..|cs| - 1]) && cs[|cs| - 1].off == 0
    ensures Spare(cs)
  {
    forall i | 0 <= i < |cs| ensures cs[i].off == 0 {
      if i < |cs| - 1 { assert cs[..|cs| - 1][i] == cs[i]; }
    }
  }

  // ----- lists in memory

  ghost predicate AddrsDiffer(cs: seq<Cell>)
  {
    forall i, j :: 0 <= i < j < |cs| ==> cs[i].at != cs[j].at
  }

  ghost predicate AllOk(cs: seq<Cell>)
  {
    forall i :: 0 <= i < |cs| ==> cs[i].Ok()
  }

  ghost function At(cs: seq<Cell>, i: nat, tail: Ptr): (p: Ptr)
  {
    if i < |cs| then cs[i].at else tail
  }

  ghost function Addrs(cs: seq<Cell>): (s: set<Ptr>)
  {
    set c | c in cs :: c.at
  }

  ghost predicate Stored(m: Memory, cs: seq<Cell>, tail: Ptr, i: nat)
    requires i < |cs|
  {
    cs[i].at in m && m[cs[i].at] == Chain(At(cs, i + 1, tail), cs[i].misalign, cs[i].off, cs[i].buffer)
  }

  /** The chunks cs are in memory, each linked to the one after it and the last one to tail. */
  ghost predicate Seg(m: Memory, cs: seq<Cell>, tail: Ptr)
  {
    forall i :: 0 <= i < |cs| ==> Stored(m, cs, tail, i)
  }

  ghost predicate Sound(cs: seq<Cell>)
  {
    AddrsDiffer(cs) && AllOk(cs)
  }

  lemma SoundJoin(a: seq<Cell>, b: seq<Cell>)
    requires Sound(a) && Sound(b) && Addrs(a) !! Addrs(b)
    ensures Sound(a + b)
  {
    var cs := a + b;
    forall i, j | 0 <= i < j < |cs| ensures cs[i].at != cs[j].at {
      if i < |a| <= j {
        assert a[i].at in Addrs(a) && b[j - |a|].at in Addrs(b);
      }
    }
  }

  lemma SoundUpdate(cs: seq<Cell>, i: nat, c: Cell)
    requires Sound(cs) && i < |cs| && c.Ok() && c.at == cs[i].at
    ensures Sound(cs[i := c]) && Addrs(cs[i := c]) == Addrs(cs)
  {
    var cs' := cs[i := c];
    forall p ensures p in Addrs(cs') <==> p in Addrs(cs) {
      if p in Addrs(cs') {
        var k :| 0 <= k < |cs'| && cs'[k].at == p;
        assert cs[k] in cs;
      }
      if p in Addrs(cs) {
        var k :| 0 <= k < |cs| && cs[k].at == p;
        assert cs'[k] in cs';
      }
    }
  }

  /** The two halves of a sound list have no address in common. */
  lemma SoundSplit(cs: seq<Cell>, k: nat)
    requires Sound(cs) && k <= |cs|
    ensures Sound(cs[..k]) && Sound(cs[k..])
    ensures Addrs(cs[..k]) !! Addrs(cs[k..]) && Addrs(cs[..k]) + Addrs(cs[k..]) == Addrs(cs)
  {
    AddrsJoin(cs[..k], cs[k..]);
    assert cs[..k] + cs[k..] == cs;
    forall p | p in Addrs(cs[..k]) ensures p !in Addrs(cs[k..]) {
      var i :| 0 <= i < k && cs[..k][i].at == p;
      forall j | 0 <= j < |cs| - k ensures cs[k..][j].at != p {
        assert cs[k..][j] == cs[k + j] && cs[i].at == p;
      }
    }
  }

  lemma AddrsJoin(a: seq<Cell>, b: seq<Cell>)
    ensures Addrs(a + b) == Addrs(a) + Addrs(b)
  {
    forall p | p in Addrs(a) + Addrs(b) ensures p in Addrs(a + b) {
      var c :| (c in a || c in b) && c.at == p;
      assert c in a + b;
    }
  }

  lemma AddrIn(cs: seq<Cell>, i: nat)
    requires i < |cs|
    ensures cs[i].at in Addrs(cs)
  {
    assert cs[i] in cs;
  }

  lemma NoAddrs(cs: seq<Cell>)
    ensures Addrs([]) == {} && Addrs(cs) !! Addrs([])
  {}

  lemma AddrsOne(c: Cell)
    ensures Addrs([c]) == {c.at}
  {
    assert [c][0] in [c];
  }

  lemma SoundOne(c: Cell)
    requires c.Ok()
    ensures Sound([c])
  {}

  lemma SegSplit(m: Memory, cs: seq<Cell>, tail: Ptr, k: nat)
    requires Seg(m, cs, tail) && k <= |cs|
    ensures Seg(m, cs[..k], At(cs, k, tail)) && Seg(m, cs[k..], tail)
  {
    forall i | 0 <= i < k ensures Stored(m, cs[..k], At(cs, k, tail), i) {
      assert Stored(m, cs, tail, i);
    }
    forall i | 0 <= i < |cs| - k ensures Stored(m, cs[k..], tail, i) {
      assert Stored(m, cs, tail, k + i);
    }
  }

  lemma SegJoin(m: Memory, a: seq<Cell>, b: seq<Cell>, tail: Ptr)
    requires Seg(m, a, At(b, 0, tail)) && Seg(m, b, tail)
    ensures Seg(m, a + b, tail)
  {
    forall i | 0 <= i < |a| + |b| ensures Stored(m, a + b, tail, i) {
      if i < |a| { assert Stored(m, a, At(b, 0, tail), i); } else { assert Stored(m, b, tail, i - |a|); }
    }
  }

  /** A list depends only on its own addresses. */
  lemma SegSame(m: Memory, m': Memory, cs: seq<Cell>, tail: Ptr)
    requires Seg(m, cs, tail)
    requires forall p :: p in Addrs(cs) && p in m ==> p in m' && m'[p] == m[p]
    ensures Seg(m', cs, tail)
  {
    forall i | 0 <= i < |cs| ensures Stored(m', cs, tail, i) {
      assert Stored(m, cs, tail, i);
      assert cs[i] in cs;
    }
  }

  /** Writing the next-field of the last chunk. */
  lemma SegRetail(m: Memory, cs: seq<Cell>, tail: Ptr, tail': Ptr)
    requires Seg(m, cs, tail) && Sound(cs) && |cs| > 0
    ensures cs[|cs| - 1].at in m
    ensures Seg(m[cs[|cs| - 1].at := m[cs[|cs| - 1].at].(next := tail')], cs, tail')
  {
    assert Stored(m, cs, tail, |cs| - 1);
    var m' := m[cs[|cs| - 1].at := m[cs[|cs| - 1].at].(next := tail')];
    forall i | 0 <= i < |cs| ensures Stored(m', cs, tail', i) {
      assert Stored(m, cs, tail, i);
    }
  }

  /** Writing everything but the next-field of one chunk. */
  lemma SegUpdate(m: Memory, cs: seq<Cell>, tail: Ptr, i: nat, c: Cell)
    requires Seg(m, cs, tail) && AddrsDiffer(cs) && i < |cs| && c.at == cs[i].at
    ensures c.at in m && m[c.at].next == At(cs, i + 1, tail)
    ensures Seg(m[c.at := Chain(m[c.at].next, c.misalign, c.off, c.buffer)], cs[i := c], tail)
  {
    assert Stored(m, cs, tail, i);
    var m' := m[c.at := Chain(m[c.at].next, c.misalign, c.off, c.buffer)];
    var cs' := cs[i := c];
    forall k | 0 <= k < |cs'| ensures Stored(m', cs', tail, k) {
      assert Stored(m, cs, tail, k);
    }
  }

  lemma SegFind(m: Memory, cs: seq<Cell>, tail: Ptr)
    requires Seg(m, cs, tail)
    ensures Addrs(cs) <= m.Keys
  {
    forall p | p in Addrs(cs) ensures p in m {
      var i :| 0 <= i < |cs| && cs[i].at == p;
      assert Stored(m, cs, tail, i);
    }
  }

  // ----- what an operation leaves alone

  /**
   The chunks cs became the chunks cs': every other chunk is as it was, new addresses
   were free before, and every address given up is free now.
   */
  ghost predicate Kept(m: Memory, cs: seq<Cell>, m': Memory, cs': seq<Cell>)
  {
    && m'.Keys == (m.Keys - Addrs(cs)) + Addrs(cs')
    && (m.Keys - Addrs(cs)) !! Addrs(cs')
    && (forall p :: p in m && p !in Addrs(cs) ==> p in m' && m'[p] == m[p])
  }

  lemma KeptAll(m: Memory, cs: seq<Cell>, tail: Ptr)
    requires Seg(m, cs, tail)
    ensures Kept(m, cs, m, cs)
  {
    SegFind(m, cs, tail);
  }

  /** Allocating a chunk that is not on the list yet. */
  lemma KeptNew(m: Memory, cs: seq<Cell>, tail: Ptr, c: Cell, ch: Chain)
    requires Seg(m, cs, tail) && c.at !in m
    ensures Kept(m, cs, m[c.at := ch], cs + [c]) && c.at !in Addrs(cs) && Seg(m[c.at := ch], cs, tail)
  {
    SegFind(m, cs, tail);
    AddrsJoin(cs, [c]);
    AddrsOne(c);
    SegSame(m, m[c.at := ch], cs, tail);
  }

  /** Filling in a chunk that is not on the list yet. */
  lemma KeptFill(m: Memory, cs: seq<Cell>, tail: Ptr, c: Cell, ch: Chain)
    requires Seg(m, cs, tail) && c.at in m && c.at !in Addrs(cs)
    ensures Kept(m, cs + [c], m[c.at := ch], cs + [Cell(c.at, ch.misalign, ch.off, ch.buffer)])
    ensures Seg(m[c.at := ch], cs, tail)
  {
    var c' := Cell(c.at, ch.misalign, ch.off, ch.buffer);
    SegFind(m, cs, tail);
    AddrsJoin(cs, [c]);
    AddrsJoin(cs, [c']);
    AddrsOne(c);
    AddrsOne(c');
    SegSame(m, m[c.at := ch], cs, tail);
  }

  /** An operation on a list leaves alone a chunk beside it. */
  lemma KeptBeside(m: Memory, a: seq<Cell>, m': Memory, a': seq<Cell>, c: Cell)
    requires Kept(m, a, m', a') && c.at in m && c.at !in Addrs(a)
    ensures Kept(m, a + [c], m', a' + [c]) && c.at !in Addrs(a') && c.at in m' && m'[c.at] == m[c.at]
  {
    AddrsOne(c);
    KeptWiden(m, a, m', a', [c]);
  }

  lemma KeptSteps(m: Memory, a: seq<Cell>, m': Memory, b: seq<Cell>, m'': Memory, c: seq<Cell>)
    requires Kept(m, a, m', b) && Kept(m', b, m'', c)
    ensures Kept(m, a, m'', c)
  {}

  /** A list that has no chunk in common with the one operated on is untouched, and still has none. */
  lemma KeptApart(m: Memory, a: seq<Cell>, m': Memory, a': seq<Cell>, b: seq<Cell>, tail: Ptr)
    requires Kept(m, a, m', a') && Seg(m, b, tail) && Addrs(a) !! Addrs(b)
    ensures Seg(m', b, tail) && Addrs(a') !! Addrs(b)
  {
    SegFind(m, b, tail);
    SegSame(m, m', b, tail);
  }

  /** An operation on a list leaves alone any longer list it is part of. */
  lemma KeptWiden(m: Memory, a: seq<Cell>, m': Memory, a': seq<Cell>, b: seq<Cell>)
    requires Kept(m, a, m', a') && Addrs(a) !! Addrs(b) && Addrs(b) <= m.Keys
    ensures Kept(m, a + b, m', a' + b)
  {
    AddrsJoin(a, b);
    AddrsJoin(a', b);
    assert m'.Keys == (m.Keys - Addrs(a + b)) + Addrs(a' + b);
    assert (m.Keys - Addrs(a + b)) !! Addrs(a' + b);
  }

  /** A change to the second of two lists, seen as a change to both. */
  lemma KeptFrom(m: Memory, a: seq<Cell>, b: seq<Cell>, m': Memory, b': seq<Cell>)
    requires Kept(m, b, m', b') && Addrs(a) <= m.Keys && Addrs(a) !! Addrs(b)
    ensures Kept(m, a + b, m', a + b')
  {
    KeptWiden(m, b, m', b', a);
    AddrsJoin(a, b);
    AddrsJoin(a, b');
    AddrsJoin(b, a);
    AddrsJoin(b', a);
  }

  /** A change to the first of two lists, seen as a change to both. */
  lemma KeptTo(m: Memory, a: seq<Cell>, b: seq<Cell>, m': Memory, a': seq<Cell>)
    requires Kept(m, a, m', a') && Seg(m, b, NULL) && Addrs(a) !! Addrs(b)
    ensures Kept(m, a + b, m', a' + b)
  {
    SegFind(m, b, NULL);
    KeptWiden(m, a, m', a', b);
  }

  lemma BothKept(m: Memory, a: seq<Cell>, b: seq<Cell>)
    requires Seg(m, a, NULL) && Seg(m, b, NULL)
    ensures Kept(m, a + b, m, a + b)
  {
    SegFind(m, a, NULL);
    SegFind(m, b, NULL);
    AddrsJoin(a, b);
  }

  // ----- allocation

  lemma {:induction false} BoundOf(s: set<Ptr>) returns (b: Ptr)
    ensures forall p :: p in s ==> p < b
  {
    if s == {} {
      b := 0;
    } else {
      var p :| p in s;
      var b' := BoundOf(s - {p});
      b := if p < b' then b' else p + 1;
      assert forall q :: q in s && q != p ==> q in s - {p};
    }
  }

  /** Memory is finite, so there is always an address to allocate at. */
  lemma FreeAddress(m: Memory) returns (p: Ptr)
    ensures p != NULL && p !in m
  {
    var b := BoundOf(m.Keys);
    p := b + 1;
    assert p !in m.Keys;
  }

  /** The least of first, twice first and so on that is not below full. */
  function Doubled(first: nat, full: nat): (r: nat)
    requires first > 0
    ensures r >= full
    decreases full - first
  {
    if first < full then Doubled(first * 2, full) else first
  }

  /** The room in a chunk allocated for size bytes, which with its header are rounded up to a power of two. */
  function ChainRoom(size: nat): (n: nat)
    ensures n >= size
  {
    var full := size + CHAIN_SIZE;
    (if full < CHAIN_MAX / 2 then Doubled(MIN_BUFFER_SIZE, full) else full) - CHAIN_SIZE
  }

  lemma {:induction false} DoubledIs(first: nat, full: nat)
    requires first > 0
    ensures var r := Doubled(first, full); r == first || r < 2 * full
    decreases full - first
  {
    if first < full { DoubledIs(first * 2, full); }
  }

  /** A chunk with its header has at least 1024 bytes, and less than twice what is asked for if that is more. */
  lemma RoomIs(size: nat)
    ensures var all := ChainRoom(size) + 48;
      && all >= size + 48
      && (size + 48 < 0x3FFF_FFFF_FFFF_FFFF ==> all == 1024 || all < 2 * (size + 48))
      && (size + 48 >= 0x3FFF_FFFF_FFFF_FFFF ==> all == size + 48)
  {
    DoubledIs(1024, size + 48);
  }

  /** evbuffer_chain_new: refuses oversized chunks, and rounds the allocation up to a power of two. */
  method ChainNew(m: Memory, size: nat) returns (m': Memory, p: Ptr, ghost c: Cell)
    ensures p == NULL <==> size > CHAIN_MAX - CHAIN_SIZE
    ensures p == NULL ==> m' == m
    ensures p != NULL ==> p !in m && c.at == p && c.Ok() && c.misalign == 0 && c.off == 0
    ensures p != NULL ==> |c.buffer| == ChainRoom(size) >= size
    ensures p != NULL && size + 48 <= 1024 ==> |c.buffer| + 48 == 1024
    ensures p != NULL && size + 48 > 1024 ==> |c.buffer| + 48 < 2 * (size + 48)
    ensures p != NULL ==> m' == m[p := Chain(NULL, 0, 0, c.buffer)]
  {
    m', p, c := m, NULL, Cell(NULL, 0, 0, []);
    RoomIs(size);
    if size > CHAIN_MAX - CHAIN_SIZE {
      return;
    }
    var full := size + CHAIN_SIZE;
    var toAlloc := full;
    if full < CHAIN_MAX / 2 {
      toAlloc := MIN_BUFFER_SIZE;
      while toAlloc < full
        invariant MIN_BUFFER_SIZE <= toAlloc <= CHAIN_MAX && Doubled(toAlloc, full) == Doubled(MIN_BUFFER_SIZE, full)
      {
        toAlloc := toAlloc * 2;
      }
    }
    ghost var free := FreeAddress(m);
    p :| p != NULL && p !in m;
    assert |seq(toAlloc - CHAIN_SIZE, _ => 0 as byte)| == toAlloc - CHAIN_SIZE;
    var buffer: seq<byte> :| |buffer| == toAlloc - CHAIN_SIZE;  // uninitialised memory
    m' := m[p := Chain(NULL, 0, 0, buffer)];
    c := Cell(p, 0, 0, buffer);
  }

  /** evbuffer_free_all_chains */
  method FreeAllChains(m: Memory, chain: Ptr, ghost cs: seq<Cell>) returns (m': Memory)
    requires Seg(m, cs, NULL) && Sound(cs) && chain == At(cs, 0, NULL)
    ensures m' == m - Addrs(cs)
    ensures Kept(m, cs, m', [])
  {
    m' := m;
    var c := chain;
    ghost var k := 0;
    assert cs[0..] == cs && cs[..0] == [];
    assert k < |cs| ==> cs[k].Ok();
    while c != NULL
      invariant k <= |cs| && c == At(cs, k, NULL)
      invariant c == NULL ==> k == |cs|
      invariant m' == m - Addrs(cs[..k])
      decreases |cs| - k
    {
      assert Stored(m, cs, NULL, k);
      SoundSplit(cs, k);
      assert cs[k] in cs[k..];
      var next := m'[c].next;
      m' := m' - {c};
      AddrsJoin(cs[..k], [cs[k]]);
      AddrsOne(cs[k]);
      assert cs[..k + 1] == cs[..k] + [cs[k]];
      c := next;
      k := k + 1;
      assert k < |cs| ==> cs[k].Ok();
    }
    assert cs[..|cs|] == cs;
    SegFind(m, cs, NULL);
  }

  /** Freeing the first chunk of a list. */
  lemma FreedFirst(m: Memory, cs: seq<Cell>)
    requires Seg(m, cs, NULL) && Sound(cs) && |cs| > 0
    ensures var m' := m - {cs[0].at}; Seg(m', cs[1..], NULL) && Sound(cs[1..]) && Kept(m, cs, m', cs[1..])
    ensures Bytes(cs) == cs[0].Data() + Bytes(cs[1..])
  {
    hide Bytes, BytesTo, Cell.Data, Cell.Ok;
    var m' := m - {cs[0].at};
    SegSplit(m, cs, NULL, 1);
    SoundSplit(cs, 1);
    assert cs[..1] == [cs[0]];
    AddrsOne(cs[0]);
    SegSame(m, m', cs[1..], NULL);
    SegFind(m, cs, NULL);
    BytesFirst(cs);
  }
}
