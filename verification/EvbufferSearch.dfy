/** Positions in an evbuffer, searching, and reading lines. */
module EvbufferSearch {
  import opened Basics
  import opened Chunks
  import opened Evbuffers

  const CR: byte := 13
  const LF: byte := 10

  /** struct evbuffer_ptr */
  datatype EvPtr = EvPtr(pos: int, chain: Ptr, inChain: nat)

  /** p is inChain bytes into chunk k, or just past the chunks when k is their number. */
  ghost predicate Points(cs: seq<Cell>, p: EvPtr, k: nat)
  {
    && k <= |cs| && p.chain == At(cs, k, NULL)
    && (if k < |cs| then p.inChain <= cs[k].off else p.inChain == 0)
    && p.pos == |Bytes(cs[..k])| + p.inChain
  }

  /** A position that a caller may pass in: in some chunk, or at the start of a buffer. */
  ghost predicate Pointer(cs: seq<Cell>, p: EvPtr)
  {
    exists k: nat :: Points(cs, p, k)
  }

  /** Byte t of chunk k, among all the bytes. */
  lemma ByteAt(cs: seq<Cell>, k: nat)
    requires Sound(cs) && k < |cs|
    ensures |Bytes(cs)| >= |Bytes(cs[..k])| + cs[k].off && |cs[k].Data()| == cs[k].off
    ensures Bytes(cs[..k + 1]) == Bytes(cs[..k]) + cs[k].Data()
    ensures forall t {:trigger cs[k].Data()[t]} ::
      0 <= t < cs[k].off ==> Bytes(cs)[|Bytes(cs[..k])| + t] == cs[k].Data()[t]
    ensures Bytes(cs)[|Bytes(cs[..k])|..|Bytes(cs[..k])| + cs[k].off] == cs[k].Data()
  {
    hide Bytes, BytesTo, Cell.Data;
    BytesAt(cs, k);
    BytesPush(cs[..k], cs[k]);
    assert cs[..k + 1] == cs[..k] + [cs[k]];
    CellOk(cs, k);
  }

  /** The position just past the chunks is the length of the buffer. */
  lemma EndAt(cs: seq<Cell>, k: nat)
    requires k <= |cs|
    ensures |Bytes(cs[..k])| <= |Bytes(cs)| && (k == |cs| ==> Bytes(cs[..k]) == Bytes(cs))
  {
    hide Bytes, BytesTo, Cell.Data;
    BytesSplit(cs, k);
    assert cs[..|cs|] == cs;
  }

  lemma StartAt(cs: seq<Cell>)
    ensures Points(cs, EvPtr(0, At(cs, 0, NULL), 0), 0)
  {
    BytesNone();
    assert cs[..0] == [];
  }

  // ----- one chunk

  /** memchr: the first place of c, or -1 */
  method MemChr(s: seq<byte>, c: byte) returns (i: int)
    ensures if i < 0 then i == -1 && c !in s else i < |s| && s[i] == c && c !in s[..i]
  {
    for k := 0 to |s|
      invariant c !in s[..k]
    {
      if s[k] == c {
        return k;
      }
    }
    return -1;
  }

  predicate IsEolChar(c: byte)
  {
    c == CR || c == LF
  }

  const CHUNK_SZ: nat := 128

  /** find_eol_char: the first CR or LF, looked for CHUNK_SZ bytes at a time */
  method FindEolCharIn(s: seq<byte>) returns (i: int)
    ensures if i < 0 then i == -1 && forall k :: 0 <= k < |s| ==> !IsEolChar(s[k])
            else i < |s| && IsEolChar(s[i]) && forall k :: 0 <= k < i ==> !IsEolChar(s[k])
  {
    var p := 0;
    while p < |s|
      invariant 0 <= p
      invariant forall k :: 0 <= k < p && k < |s| ==> !IsEolChar(s[k])
      decreases |s| - p
    {
      var chunk := if p + CHUNK_SZ < |s| then CHUNK_SZ else |s| - p;
      var part := s[p..p + chunk];
      var cr := MemChr(part, CR);
      var lf := MemChr(part, LF);
      assert forall k :: 0 <= k < chunk ==> part[k] == s[p + k];
      FirstIs(part, CR, cr);
      FirstIs(part, LF, lf);
      if cr >= 0 {
        if lf >= 0 && lf < cr {
          return p + lf;
        }
        return p + cr;
      } else if lf >= 0 {
        return p + lf;
      }
      p := p + CHUNK_SZ;
    }
    return -1;
  }

  lemma FirstIs(s: seq<byte>, c: byte, i: int)
    requires if i < 0 then c !in s else i < |s| && c !in s[..i]
    ensures forall k :: 0 <= k < (if i < 0 then |s| else i) ==> s[k] != c
  {
    if i >= 0 { assert forall k :: 0 <= k < i ==> s[k] == s[..i][k]; }
  }

  // ----- across chunks

  predicate Wanted(what: Option<byte>, c: byte)
  {
    match what
    case None => IsEolChar(c)
    case Some(b) => c == b
  }

  ghost predicate NoneIn(s: seq<byte>, what: Option<byte>, lo: int, hi: int)
  {
    forall i :: 0 <= i < |s| && lo <= i < hi ==> !Wanted(what, s[i])
  }

  /** The first wanted byte of data at or after i, or none. */
  method FindHere(data: seq<byte>, what: Option<byte>) returns (cp: int)
    ensures if cp < 0 then cp == -1 && NoneIn(data, what, 0, |data|)
            else cp < |data| && Wanted(what, data[cp]) && NoneIn(data, what, 0, cp)
  {
    match what {
      case None => cp := FindEolCharIn(data);
      case Some(b) =>
        cp := MemChr(data, b);
        FirstIs(data, b, cp);
    }
  }

  /** Looking at the rest of one chunk looks at that part of all the bytes. */
  lemma NoneFurther(cs: seq<Cell>, what: Option<byte>, lo: int, k: nat, i: nat, n: nat)
    requires Sound(cs) && k < |cs| && i <= cs[k].off && n <= cs[k].off - i && i <= |cs[k].Data()|
    requires NoneIn(Bytes(cs), what, lo, |Bytes(cs[..k])| + i)
    requires NoneIn(cs[k].Data()[i..], what, 0, n)
    ensures NoneIn(Bytes(cs), what, lo, |Bytes(cs[..k])| + i + n)
  {
    hide Bytes, BytesTo, Cell.Data;
    ByteAt(cs, k);
    var s, o := Bytes(cs), |Bytes(cs[..k])|;
    forall j | 0 <= j < |s| && lo <= j < o + i + n ensures !Wanted(what, s[j]) {
      if j >= o + i {
        assert cs[k].Data()[i..][j - o - i] == cs[k].Data()[j - o] == s[j];
      }
    }
  }

  /** Looking through one chunk from i on. */
  method ScanChunk(m: Memory, ghost cs: seq<Cell>, ghost k: nat, chain: Ptr, i: nat, what: Option<byte>,
                   ghost lo: int) returns (cp: int)
    requires Seg(m, cs, NULL) && Sound(cs) && k < |cs| && chain == cs[k].at && chain in m && m[chain].off == cs[k].off
    requires i <= cs[k].off
    requires NoneIn(Bytes(cs), what, lo, |Bytes(cs[..k])| + i)
    ensures -1 <= cp && NoneIn(Bytes(cs), what, lo, |Bytes(cs[..k])| + (if cp < 0 then cs[k].off else i + cp))
    ensures |Bytes(cs[..k])| + cs[k].off == |Bytes(cs[..k + 1])| <= |Bytes(cs)|
    ensures cp >= 0 ==> i + cp < cs[k].off && Wanted(what, Bytes(cs)[|Bytes(cs[..k])| + i + cp])
  {
    hide Bytes, BytesTo, Seg, Sound, Cell.Data, Cell.Ok, NoneIn, Wanted;
    ChunkAt(m, cs, k);
    var ch := m[chain];
    DataOf(cs[k], ch);
    ByteAt(cs, k);
    var data := ch.buffer[ch.misalign..ch.misalign + ch.off][i..];
    cp := FindHere(data, what);
    NoneFurther(cs, what, lo, k, i, if cp < 0 then ch.off - i else cp);
    assert cp >= 0 ==> data[cp] == cs[k].Data()[i + cp];
  }

  /** evbuffer_strchr, and evbuffer_find_eol_char when no byte is given */
  method FindIn(m: Memory, b: Evbuffer, ghost g: Abs, it: EvPtr, what: Option<byte>) returns (found: bool, it': EvPtr)
    requires b.Valid(m, g) && Pointer(g.cells, it)
    ensures found ==> Pointer(g.cells, it') && it.pos <= it'.pos < |g.Contents()| && Wanted(what, g.Contents()[it'.pos])
    ensures found ==> it'.chain != NULL && it'.chain in m && it'.inChain < m[it'.chain].off
    ensures NoneIn(g.Contents(), what, it.pos, if found then it'.pos else |g.Contents()|)
  {
    hide Bytes, BytesTo, Seg, Sound, Spare, Cell.Data, Cell.Ok, Marked, NoneIn, Wanted;
    ghost var cs := g.cells;
    ghost var k: nat :| Points(cs, it, k);
    var chain, i: nat, pos := it.chain, it.inChain, it.pos;
    NoneYet(Bytes(cs), what, it.pos);
    EndAt(cs, k);
    if k < |cs| { ChunkAt(m, cs, k); }
    while chain != NULL
      invariant k <= |cs| && chain == At(cs, k, NULL)
      invariant k < |cs| ==> chain != NULL && chain in m && m[chain].off == cs[k].off && i <= cs[k].off
      invariant k == |cs| ==> i == 0
      invariant it.pos <= pos == |Bytes(cs[..k])| + i && NoneIn(Bytes(cs), what, it.pos, pos)
      decreases |cs| - k
    {
      var cp := ScanChunk(m, cs, k, chain, i, what, it.pos);
      if cp >= 0 {
        found, it' := true, EvPtr(pos + cp, chain, i + cp);
        assert Points(cs, it', k);
        return;
      }
      ChunkAt(m, cs, k);
      pos := pos + m[chain].off - i;
      i := 0;
      chain := m[chain].next;
      k := k + 1;
      if k < |cs| { ChunkAt(m, cs, k); }
    }
    EndAt(cs, k);
    found, it' := false, it;
  }

  lemma NoneYet(s: seq<byte>, what: Option<byte>, p: int)
    ensures NoneIn(s, what, p, p)
  {}

  /** How many bytes from position p on are CR or LF. */
  ghost function EolRun(s: seq<byte>, p: nat): (n: nat)
    requires p <= |s|
    ensures p + n <= |s|
    decreases |s| - p
  {
    if p < |s| && IsEolChar(s[p]) then 1 + EolRun(s, p + 1) else 0
  }

  lemma {:induction false} EolRunSkip(s: seq<byte>, p: nat, n: nat)
    requires p + n <= |s| && forall i :: p <= i < p + n ==> IsEolChar(s[i])
    ensures EolRun(s, p) == n + EolRun(s, p + n)
    decreases n
  {
    if n > 0 { EolRunSkip(s, p + 1, n - 1); }
  }

  /** The run of CR and LF bytes from i on in one chunk. */
  method SpanChunk(m: Memory, ghost cs: seq<Cell>, ghost k: nat, chain: Ptr, i: nat) returns (n: nat)
    requires Seg(m, cs, NULL) && Sound(cs) && k < |cs| && chain == cs[k].at && chain in m && m[chain].off == cs[k].off
    requires i <= cs[k].off
    ensures var s, p := Bytes(cs), |Bytes(cs[..k])| + i;
      && i + n <= cs[k].off && p + n <= |s| && EolRun(s, p) == n + EolRun(s, p + n)
      && (i + n < cs[k].off ==> EolRun(s, p + n) == 0)
    ensures |Bytes(cs[..k])| + cs[k].off == |Bytes(cs[..k + 1])|
  {
    hide Bytes, BytesTo, Seg, Sound, Cell.Data, Cell.Ok;
    ChunkAt(m, cs, k);
    var ch := m[chain];
    DataOf(cs[k], ch);
    ByteAt(cs, k);
    var data := ch.buffer[ch.misalign..ch.misalign + ch.off];
    n := 0;
    while i + n < |data| && IsEolChar(data[i + n])
      invariant i + n <= |data|
      invariant forall t :: i <= t < i + n ==> IsEolChar(data[t])
    {
      n := n + 1;
    }
    ghost var s, o := Bytes(cs), |Bytes(cs[..k])|;
    forall t | o + i <= t < o + i + n ensures IsEolChar(s[t]) {
      assert s[o + (t - o)] == cs[k].Data()[t - o];
    }
    EolRunSkip(s, o + i, n);
    assert i + n < cs[k].off ==> s[o + (i + n)] == cs[k].Data()[i + n];
  }

  /** evbuffer_strspn with "\r\n" */
  method StrspnEol(m: Memory, b: Evbuffer, ghost g: Abs, ptr: EvPtr) returns (count: int)
    requires b.Valid(m, g) && Pointer(g.cells, ptr)
    ensures 0 <= ptr.pos <= |g.Contents()|
    ensures if ptr.chain == NULL then count == -1 else count == EolRun(g.Contents(), ptr.pos)
  {
    hide Bytes, BytesTo, Seg, Sound, Spare, Cell.Data, Cell.Ok, Marked, EolRun;
    ghost var cs, s := g.cells, g.Contents();
    ghost var k: nat :| Points(cs, ptr, k);
    EndAt(cs, k);
    if k < |cs| { ByteAt(cs, k); ChunkAt(m, cs, k); }
    if ptr.chain == NULL {
      return -1;
    }
    var chain, i: nat := ptr.chain, ptr.inChain;
    count := 0;
    while true
      invariant k < |cs| && chain == cs[k].at && chain in m && m[chain].off == cs[k].off && i <= cs[k].off && count >= 0
      invariant ptr.pos + count == |Bytes(cs[..k])| + i <= |s|
      invariant EolRun(s, ptr.pos) == count + EolRun(s, ptr.pos + count)
      decreases |cs| - k
    {
      var n := SpanChunk(m, cs, k, chain, i);
      ChunkAt(m, cs, k);
      count := count + n;
      if i + n < m[chain].off {
        return;
      }
      i := 0;
      if m[chain].next == NULL {
        if k + 1 < |cs| { ChunkAt(m, cs, k + 1); }
        EndAt(cs, k + 1);
        RunEnds(s);
        return;
      }
      chain := m[chain].next;
      k := k + 1;
      ChunkAt(m, cs, k);
      EndAt(cs, k);
    }
  }

  lemma RunEnds(s: seq<byte>)
    ensures EolRun(s, |s|) == 0
  {}

  // ----- moving a position

  datatype PtrHow = Set | Add

  /** evbuffer_ptr_set: succeeds exactly for a position with a byte at it, and then lands on that byte. */
  method PtrSet(m: Memory, b: Evbuffer, ghost g: Abs, ptr: EvPtr, position: nat, how: PtrHow)
    returns (ok: bool, ptr': EvPtr)
    requires b.Valid(m, g)
    requires how.Add? ==> ptr.pos < 0 || Pointer(g.cells, ptr)
    ensures how.Set? ==> (ok <==> position < |g.Contents()|)
    ensures how.Add? ==> (ok <==> 0 <= ptr.pos && ptr.pos + position <= SIZE_MAX && ptr.pos + position < |g.Contents()|)
    ensures ok ==> Pointer(g.cells, ptr') && ptr'.pos == if how.Set? then position else ptr.pos + position
    ensures ok ==> ptr'.chain in m && ptr'.inChain < m[ptr'.chain].off
    ensures !ok ==> ptr'.pos == -1 || ptr' == ptr
  {
    hide Bytes, BytesTo, Seg, Sound, Spare, Cell.Data, Cell.Ok, Marked;
    ghost var cs := g.cells;
    var left := position;
    var chain, pos: nat;
    ghost var k: nat;
    ptr' := ptr;
    match how {
      case Set =>
        chain := b.first;
        ptr' := ptr'.(pos := position);
        pos := 0;
        k := 0;
        StartAt(cs);
      case Add =>
        if ptr.pos < 0 || SIZE_MAX - position < ptr.pos {
          return false, ptr;
        }
        k :| Points(cs, ptr, k);
        chain := ptr.chain;
        ptr' := ptr'.(pos := ptr.pos + position);
        pos := ptr.inChain;
    }
    ghost var target := ptr'.pos;
    EndAt(cs, k);
    if k < |cs| { ChunkAt(m, cs, k); ByteAt(cs, k); }
    while chain != NULL && pos + left >= m[chain].off
      invariant k <= |cs| && chain == At(cs, k, NULL)
      invariant k < |cs| ==>
        && chain != NULL && chain in m && m[chain].off == cs[k].off && pos <= cs[k].off
        && m[chain].next == At(cs, k + 1, NULL)
      invariant 0 <= left && target == |Bytes(cs[..k])| + pos + left
      invariant (k == |cs| ==> pos == 0 && target >= |Bytes(cs)|)
      decreases |cs| - k
    {
      left := left - (m[chain].off - pos);
      chain := m[chain].next;
      pos := 0;
      ByteAt(cs, k);
      k := k + 1;
      EndAt(cs, k);
      if k < |cs| { ChunkAt(m, cs, k); }
    }
    if chain != NULL {
      ByteAt(cs, k);
      ptr' := ptr'.(chain := chain, inChain := pos + left);
      assert Points(cs, ptr', k);
      ok := true;
    } else {
      ptr' := ptr'.(chain := NULL, pos := -1);
      ok := false;
    }
  }

  // ----- comparing and searching

  ghost predicate Occurs(s: seq<byte>, what: seq<byte>, i: int)
  {
    0 <= i && i + |what| <= |s| && s[i..i + |what|] == what
  }

  /** memcmp: the difference of the first bytes that differ */
  method MemCmp(a: seq<byte>, b: seq<byte>) returns (r: int)
    requires |a| == |b|
    ensures r == 0 <==> a == b
  {
    for i := 0 to |a|
      invariant a[..i] == b[..i]
    {
      if a[i] != b[i] {
        return (a[i] as int) - (b[i] as int);
      }
    }
    return 0;
  }

  /** Comparing in two parts. */
  lemma OccursInParts(s: seq<byte>, what: seq<byte>, i: nat, n: nat)
    requires n <= |what| && i + |what| <= |s|
    ensures Occurs(s, what, i) <==> s[i..i + n] == what[..n] && Occurs(s, what[n..], i + n)
  {
    var t := s[i..i + |what|];
    assert t == t[..n] + t[n..] && what == what[..n] + what[n..];
    assert t[..n] == s[i..i + n] && t[n..] == s[i + n..i + n + |what[n..]|];
  }

  lemma OccursNothing(s: seq<byte>, i: nat)
    requires i <= |s|
    ensures Occurs(s, [], i)
  {}

  lemma PartOf(s: seq<byte>, o: nat, len: nat, i: nat, n: nat)
    requires i + n <= len && o + len <= |s|
    ensures s[o..o + len][i..i + n] == s[o + i..o + i + n]
  {
    var a, c := s[o..o + len][i..i + n], s[o + i..o + i + n];
    assert |a| == |c| && forall j :: 0 <= j < |a| ==> a[j] == c[j];
  }

  /** Part of chunk k, among all the bytes. */
  lemma PartAt(cs: seq<Cell>, k: nat, i: nat, n: nat, ch: Chain)
    requires Sound(cs) && k < |cs| && i + n <= cs[k].off && cs[k] == CellOf(cs[k].at, ch)
    ensures ch.misalign + ch.off <= |ch.buffer|
    ensures var o := |Bytes(cs[..k])| + i;
      o + n <= |Bytes(cs)| && ch.buffer[ch.misalign + i..ch.misalign + i + n] == Bytes(cs)[o..o + n]
    ensures |Bytes(cs[..k + 1])| == |Bytes(cs[..k])| + cs[k].off
  {
    hide Bytes, BytesTo, Cell.Data, Cell.Ok;
    ByteAt(cs, k);
    CellOk(cs, k);
    DataOf(cs[k], ch);
    var s, o := Bytes(cs), |Bytes(cs[..k])|;
    PartOf(s, o, cs[k].off, i, n);
    PartOf(ch.buffer, ch.misalign, ch.off, i, n);
  }

  /** The part of rest that chunk k has from a position on is compared with it. */
  method CompareChunk(m: Memory, ghost cs: seq<Cell>, ghost k: nat, chain: Ptr, position: nat, rest: seq<byte>)
    returns (r: int, n: nat)
    requires Sound(cs) && k < |cs| && chain in m && cs[k] == CellOf(chain, m[chain]) && position <= cs[k].off
    requires |Bytes(cs[..k])| + position + |rest| <= |Bytes(cs)|
    ensures n == Min(|rest|, cs[k].off - position) && |Bytes(cs[..k + 1])| == |Bytes(cs[..k])| + cs[k].off
    ensures var s, o := Bytes(cs), |Bytes(cs[..k])| + position;
      Occurs(s, rest, o) <==> r == 0 && Occurs(s, rest[n..], o + n)
  {
    hide Bytes, BytesTo, Sound, Cell.Data, Cell.Ok, Occurs;
    var ch := m[chain];
    n := if |rest| + position > ch.off then ch.off - position else |rest|;
    PartAt(cs, k, position, n, ch);
    OccursInParts(Bytes(cs), rest, |Bytes(cs[..k])| + position, n);
    r := MemCmp(ch.buffer[ch.misalign + position..ch.misalign + position + n], rest[..n]);
  }

  /** evbuffer_ptr_memcmp: 0 exactly when the bytes at the position are mem. */
  method PtrMemcmp(m: Memory, b: Evbuffer, ghost g: Abs, ptr: EvPtr, mem: seq<byte>) returns (r: int)
    requires b.Valid(m, g) && (ptr.pos < 0 || Pointer(g.cells, ptr))
    ensures r == 0 <==> Occurs(g.Contents(), mem, ptr.pos) && ptr.pos + |mem| <= SIZE_MAX
  {
    hide Bytes, BytesTo, Seg, Sound, Spare, Cell.Data, Cell.Ok, Marked, Occurs;
    ghost var cs, s := g.cells, g.Contents();
    OccursWithin(s, mem, ptr.pos);
    if ptr.pos < 0 || SIZE_MAX - |mem| < ptr.pos || ptr.pos + |mem| > b.totalLen {
      return -1;
    }
    ghost var k: nat :| Points(cs, ptr, k);
    var chain, position: nat, len: nat := ptr.chain, ptr.inChain, |mem|;
    var rest := mem;
    EndAt(cs, k);
    if k < |cs| { ChunkAt(m, cs, k); }
    while len != 0 && chain != NULL
      invariant k <= |cs| && chain == At(cs, k, NULL) && len == |rest|
      invariant k < |cs| ==>
        && chain != NULL && chain in m && cs[k] == CellOf(chain, m[chain]) && position <= cs[k].off
        && m[chain].next == At(cs, k + 1, NULL)
      invariant k == |cs| ==> len == 0 || (position == 0 && |Bytes(cs[..k])| == |s|)
      invariant len != 0 ==> ptr.pos + |mem| == |Bytes(cs[..k])| + position + len
      invariant ptr.pos + |mem| <= |s|
      invariant Occurs(s, mem, ptr.pos) <==> Occurs(s, rest, ptr.pos + |mem| - |rest|)
      decreases |cs| - k
    {
      var n;
      r, n := CompareChunk(m, cs, k, chain, position, rest);
      if r != 0 {
        return;
      }
      rest := rest[n..];
      len := len - n;
      position := 0;
      chain := m[chain].next;
      k := k + 1;
      EndAt(cs, k);
      if k < |cs| { ChunkAt(m, cs, k); }
    }
    OccursNothing(s, ptr.pos + |mem|);
    assert len == 0 ==> rest == [];
    return 0;
  }

  lemma OccursWithin(s: seq<byte>, what: seq<byte>, i: int)
    ensures Occurs(s, what, i) ==> 0 <= i && i + |what| <= |s|
  {}

  ghost predicate NoMatch(s: seq<byte>, what: seq<byte>, lo: int, hi: int)
  {
    forall i :: lo <= i < hi ==> !Occurs(s, what, i)
  }

  /** Where the first byte of the pattern is not, the pattern does not start. */
  lemma NoMatchHere(s: seq<byte>, what: seq<byte>, lo: int, mid: int, hi: int)
    requires what != [] && NoMatch(s, what, lo, mid) && NoneIn(s, Some(what[0]), mid, hi)
    ensures NoMatch(s, what, lo, hi)
  {
    forall i | mid <= i < hi ensures !Occurs(s, what, i) {
      OccursFirst(s, what, i);
    }
  }

  lemma OccursFirst(s: seq<byte>, what: seq<byte>, i: int)
    requires what != []
    ensures Occurs(s, what, i) ==> 0 <= i < |s| && s[i] == what[0]
  {
    if 0 <= i && i + |what| <= |s| { assert s[i..i + |what|][0] == s[i]; }
  }

  lemma NoMatchNext(s: seq<byte>, what: seq<byte>, lo: int, mid: int)
    requires NoMatch(s, what, lo, mid) && !Occurs(s, what, mid)
    ensures NoMatch(s, what, lo, mid + 1)
  {}

  /** A match that ends at or before hi starts before mid, when mid + |what| > hi. */
  lemma NoMatchPast(s: seq<byte>, what: seq<byte>, lo: int, mid: int, hi: int)
    requires NoMatch(s, what, lo, mid) && hi < mid + |what|
    ensures NoMatch(s, what, lo, hi - |what| + 1)
  {}

  ghost predicate EndsAt(cs: seq<Cell>, end: Option<EvPtr>)
  {
    end.Some? ==> end.value.chain == NULL || Pointer(cs, end.value)
  }

  /** The chunk that end points into ends no earlier than end does. */
  lemma EndWithin(cs: seq<Cell>, k: nat, end: EvPtr)
    requires Sound(cs) && k < |cs| && Pointer(cs, end) && end.chain == cs[k].at
    ensures end.pos <= |Bytes(cs[..k])| + cs[k].off
  {
    hide Bytes, BytesTo, Cell.Data, Cell.Ok;
    var j: nat :| Points(cs, end, j);
    CellOk(cs, k);
    if j < k { Apart(cs, j, k); }
    if k < j < |cs| { Apart(cs, k, j); }
  }

  /** From a position in one chunk to the start of the next one. */
  method NextChunk(m: Memory, ghost cs: seq<Cell>, ghost k: nat, pos: EvPtr) returns (pos': EvPtr)
    requires Seg(m, cs, NULL) && Sound(cs) && k < |cs| && Points(cs, pos, k) && pos.chain in m
    requires m[pos.chain].off == cs[k].off
    ensures Points(cs, pos', k + 1) && pos'.inChain == 0 && pos'.pos == |Bytes(cs[..k])| + cs[k].off
    ensures k + 1 < |cs| ==> pos'.chain != NULL && pos'.chain in m && m[pos'.chain].off == cs[k + 1].off
    ensures k + 1 == |cs| ==> pos'.chain == NULL && pos'.pos == |Bytes(cs)|
  {
    hide Bytes, BytesTo, Seg, Sound, Cell.Data, Cell.Ok;
    ChunkAt(m, cs, k);
    ByteAt(cs, k);
    EndAt(cs, k + 1);
    var ch := m[pos.chain];
    pos' := EvPtr(pos.pos + ch.off - pos.inChain, ch.next, 0);
    if k + 1 < |cs| { ChunkAt(m, cs, k + 1); }
  }

  /** One byte on, which may be in the next chunk. */
  method NextByte(m: Memory, ghost cs: seq<Cell>, ghost k: nat, pos: EvPtr) returns (pos': EvPtr, ghost k': nat)
    requires Seg(m, cs, NULL) && Sound(cs) && k < |cs| && Points(cs, pos, k) && pos.chain in m
    requires m[pos.chain].off == cs[k].off && pos.inChain < cs[k].off
    ensures Points(cs, pos', k') && pos'.pos == pos.pos + 1
    ensures k' < |cs| ==> pos'.chain != NULL && pos'.chain in m && m[pos'.chain].off == cs[k'].off
    ensures k' == |cs| ==> pos'.chain == NULL && pos'.pos == |Bytes(cs)|
    ensures (k' == k && pos'.inChain == pos.inChain + 1) || k' == k + 1
  {
    hide Bytes, BytesTo, Seg, Sound, Cell.Data, Cell.Ok;
    ChunkAt(m, cs, k);
    pos', k' := pos.(pos := pos.pos + 1, inChain := pos.inChain + 1), k;
    if pos'.inChain == m[pos.chain].off {
      pos' := NextChunk(m, cs, k, pos');
      k' := k + 1;
    }
  }

  /** evbuffer_search_range: the least match at or after start, provided that it ends no later than end */
  method SearchRange(m: Memory, b: Evbuffer, ghost g: Abs, what: seq<byte>, start: Option<EvPtr>, end: Option<EvPtr>)
    returns (pos: EvPtr)
    requires b.Valid(m, g) && b.totalLen <= SIZE_MAX
    requires start.Some? ==> Pointer(g.cells, start.value)
    requires EndsAt(g.cells, end)
    ensures var from := if start.Some? then start.value else EvPtr(0, b.first, 0);
      if what == [] || |what| > SSIZE_MAX then pos == from
      else if pos.pos < 0 then
        pos.pos == -1 &&
        NoMatch(g.Contents(), what, from.pos, (if end.Some? then end.value.pos else |g.Contents()|) - |what| + 1)
      else
        && Occurs(g.Contents(), what, pos.pos) && from.pos <= pos.pos && NoMatch(g.Contents(), what, from.pos, pos.pos)
        && (end.Some? ==> pos.pos + |what| <= end.value.pos)
        && Pointer(g.cells, pos)
  {
    hide Bytes, BytesTo, Seg, Sound, Spare, Cell.Data, Cell.Ok, Marked, Occurs, NoMatch, NoneIn, Wanted;
    ghost var cs, s := g.cells, g.Contents();
    ghost var k: nat := 0;
    pos := if start.Some? then start.value else EvPtr(0, b.first, 0);
    ghost var lo := pos.pos;
    var chain := pos.chain;
    var lastChain := if end.Some? then end.value.chain else NULL;
    if |what| == 0 || |what| > SSIZE_MAX {
      return;
    }
    StartAt(cs);
    if start.Some? { k :| Points(cs, pos, k); }
    EndAt(cs, k);
    NoMatchNone(s, what, lo);
    ghost var hi := if end.Some? then end.value.pos else |s|;
    if k < |cs| { ChunkAt(m, cs, k); }
    while chain != NULL
      invariant k <= |cs| && chain == pos.chain && Points(cs, pos, k)
      invariant k < |cs| ==> chain != NULL && chain in m && m[chain].off == cs[k].off
      invariant k == |cs| ==> pos.pos >= |s|
      invariant lo <= pos.pos && NoMatch(s, what, lo, pos.pos)
      decreases |cs| - k, if k < |cs| then cs[k].off - pos.inChain else 0
    {
      NoneYet(s, Some(what[0]), pos.pos);
      var p := ScanChunk(m, cs, k, chain, pos.inChain, Some(what[0]), pos.pos);
      if p >= 0 {
        NoMatchHere(s, what, lo, pos.pos, pos.pos + p);
        pos := pos.(pos := pos.pos + p, inChain := pos.inChain + p);
        assert Points(cs, pos, k);
        var r := PtrMemcmp(m, b, g, pos, what);
        OccursWithin(s, what, pos.pos);
        if r == 0 {
          if end.Some? && pos.pos + |what| > end.value.pos {
            NoMatchPast(s, what, lo, pos.pos, hi);
            pos := pos.(pos := -1, chain := NULL);
          }
          return;
        }
        NoMatchNext(s, what, lo, pos.pos);
        pos, k := NextByte(m, cs, k, pos);
        chain := pos.chain;
      } else {
        NoMatchHere(s, what, lo, pos.pos, |Bytes(cs[..k])| + cs[k].off);
        if chain == lastChain {
          EndWithin(cs, k, end.value);
          NoMatchPast(s, what, lo, |Bytes(cs[..k])| + cs[k].off, hi);
          pos := pos.(pos := -1, chain := NULL);
          return;
        }
        pos := NextChunk(m, cs, k, pos);
        chain := pos.chain;
        k := k + 1;
      }
    }
    NoMatchMore(s, what, lo, pos.pos);
    pos := pos.(pos := -1, chain := NULL);
  }

  lemma NoMatchNone(s: seq<byte>, what: seq<byte>, lo: int)
    ensures NoMatch(s, what, lo, lo)
  {}

  lemma NoMatchMore(s: seq<byte>, what: seq<byte>, lo: int, mid: int)
    requires what != [] && NoMatch(s, what, lo, mid) && |s| <= mid
    ensures forall hi :: NoMatch(s, what, lo, hi)
  {}

  /** The bytes from i on are those of what. */
  ghost predicate Matches(s: seq<byte>, what: seq<byte>, i: nat)
  {
    i + |what| <= |s| && forall k :: 0 <= k < |what| ==> s[i + k] == what[k]
  }

  lemma OccursIs(s: seq<byte>, what: seq<byte>, i: nat)
    ensures Occurs(s, what, i) <==> Matches(s, what, i)
  {
    if i + |what| <= |s| {
      var t := s[i..i + |what|];
      assert forall k :: 0 <= k < |what| ==> t[k] == s[i + k];
    }
  }

  /** evbuffer_search */
  method Search(m: Memory, b: Evbuffer, ghost g: Abs, what: seq<byte>, start: Option<EvPtr>) returns (pos: EvPtr)
    requires b.Valid(m, g) && b.totalLen <= SIZE_MAX && (start.Some? ==> Pointer(g.cells, start.value))
    requires 0 < |what| <= SSIZE_MAX
    ensures var lo := if start.Some? then start.value.pos else 0;
      if pos.pos < 0 then pos.pos == -1 && forall i :: lo <= i ==> !Occurs(g.Contents(), what, i)
      else
        && lo <= pos.pos && Occurs(g.Contents(), what, pos.pos)
        && forall i :: lo <= i < pos.pos ==> !Occurs(g.Contents(), what, i)
    ensures pos.pos >= 0 ==> Pointer(g.cells, pos)
    ensures pos.pos >= 0 ==> Matches(g.Contents(), what, pos.pos)
    ensures forall i: nat ::
      (if start.Some? then start.value.pos else 0) <= i && (pos.pos < 0 || i < pos.pos) ==>
        !Matches(g.Contents(), what, i)
  {
    hide Bytes, BytesTo, Seg, Sound, Spare, Cell.Data, Cell.Ok, Marked, Points, Pointer, Occurs;
    pos := SearchRange(m, b, g, what, start, None);
    forall i: nat ensures Occurs(g.Contents(), what, i) <==> Matches(g.Contents(), what, i) {
      OccursIs(g.Contents(), what, i);
    }
    forall i ensures Occurs(g.Contents(), what, i) ==> i + |what| <= |g.Contents()| {
      OccursWithin(g.Contents(), what, i);
    }
  }

  // ----- lines

  datatype EolStyle = Any | Crlf | CrlfStrict | Lf

  const CRLF: seq<byte> := [CR, LF]

  /** How long a line terminator of this style starts at p; 0 for none. */
  ghost function EolAt(s: seq<byte>, style: EolStyle, p: nat): (n: nat)
    requires p <= |s|
    ensures p + n <= |s|
  {
    match style
    case Any => EolRun(s, p)
    case Crlf => if p < |s| && s[p] == LF then 1 else if Occurs(s, CRLF, p) then 2 else 0
    case CrlfStrict => if Occurs(s, CRLF, p) then 2 else 0
    case Lf => if p < |s| && s[p] == LF then 1 else 0
  }

  ghost predicate NoEol(s: seq<byte>, style: EolStyle, lo: int, hi: int)
  {
    forall i :: 0 <= i <= |s| && lo <= i < hi ==> EolAt(s, style, i) == 0
  }

  /** Every terminator starts with a byte that the search for it looks for. */
  lemma NoEolHere(s: seq<byte>, style: EolStyle, what: Option<byte>, lo: int, mid: int, hi: int)
    requires NoEol(s, style, lo, mid) && NoneIn(s, what, mid, hi)
    requires what == (if style.Lf? then Some(LF) else None)
    ensures NoEol(s, style, lo, hi)
  {
    forall i | 0 <= i <= |s| && mid <= i < hi ensures EolAt(s, style, i) == 0 {
      OccursFirst(s, CRLF, i);
      assert i < |s| ==> !Wanted(what, s[i]);
    }
  }

  lemma NoEolMatch(s: seq<byte>, lo: int, hi: int)
    requires forall i :: lo <= i < hi ==> !Occurs(s, CRLF, i)
    ensures NoEol(s, CrlfStrict, lo, hi)
  {}

  lemma NoEolNone(s: seq<byte>, style: EolStyle, lo: int)
    ensures NoEol(s, style, lo, lo)
  {}

  lemma NoEolNext(s: seq<byte>, style: EolStyle, lo: int, mid: nat)
    requires NoEol(s, style, lo, mid) && mid <= |s| && EolAt(s, style, mid) == 0
    ensures NoEol(s, style, lo, mid + 1)
  {}

  lemma NoEolEnd(s: seq<byte>, style: EolStyle, lo: int, mid: int)
    requires NoEol(s, style, lo, mid) && |s| <= mid
    ensures NoEol(s, style, lo, |s| + 1)
  {
    if style.Any? { RunEnds(s); }
  }

  lemma EolFound(s: seq<byte>, style: EolStyle, what: Option<byte>, p: nat)
    requires p < |s| && Wanted(what, s[p]) && what == (if style.Lf? then Some(LF) else None)
    ensures style.Lf? ==> EolAt(s, style, p) == 1
    ensures style.Any? ==> EolAt(s, style, p) > 0
    ensures style.Crlf? ==> EolAt(s, style, p) == if s[p] == LF then 1 else if Occurs(s, CRLF, p) then 2 else 0
  {}

  /** evbuffer_getchr */
  method GetChr(m: Memory, b: Evbuffer, ghost g: Abs, it: EvPtr) returns (c: byte)
    requires b.Valid(m, g) && Pointer(g.cells, it) && it.chain in m && it.inChain < m[it.chain].off
    requires 0 <= it.pos < |g.Contents()|
    ensures c == g.Contents()[it.pos]
  {
    hide Bytes, BytesTo, Seg, Sound, Spare, Cell.Data, Cell.Ok, Marked;
    ghost var k: nat :| Points(g.cells, it, k);
    EndAt(g.cells, k);
    ChunkAt(m, g.cells, k);
    PartAt(g.cells, k, it.inChain, 1, m[it.chain]);
    var ch := m[it.chain];
    assert ch.buffer[ch.misalign + it.inChain..ch.misalign + it.inChain + 1][0] == ch.buffer[ch.misalign + it.inChain];
    c := ch.buffer[ch.misalign + it.inChain];
  }

  /** The loop of evbuffer_search_eol for EVBUFFER_EOL_CRLF */
  method SearchCrlf(m: Memory, b: Evbuffer, ghost g: Abs, start: EvPtr) returns (ok: bool, it: EvPtr, extra: nat)
    requires b.Valid(m, g) && b.totalLen <= SIZE_MAX && Pointer(g.cells, start) && 0 <= start.pos
    ensures if ok then start.pos <= it.pos <= |g.Contents()| && extra == EolAt(g.Contents(), Crlf, it.pos) > 0
      && NoEol(g.Contents(), Crlf, start.pos, it.pos)
            else NoEol(g.Contents(), Crlf, start.pos, |g.Contents()| + 1)
    ensures ok ==> Pointer(g.cells, it)
  {
    hide Bytes, BytesTo, Seg, Sound, Spare, Cell.Data, Cell.Ok, Marked, Pointer, NoEol, NoneIn, Wanted, EolAt, Occurs;
    ghost var s := g.Contents();
    it := start;
    extra := 0;
    NoEolNone(s, Crlf, start.pos);
    while true
      invariant Pointer(g.cells, it) && start.pos <= it.pos
      invariant NoEol(s, Crlf, start.pos, it.pos)
      decreases |s| - it.pos
    {
      var at := it;
      ok, it := FindIn(m, b, g, at, None);
      NoEolHere(s, Crlf, None, start.pos, at.pos, if ok then it.pos else |s|);
      if !ok {
        NoEolEnd(s, Crlf, start.pos, |s|);
        return;
      }
      EolFound(s, Crlf, None, it.pos);
      OccursWithin(s, CRLF, it.pos);
      var c := GetChr(m, b, g, it);
      if c == LF {
        extra := 1;
        return;
      }
      var r := PtrMemcmp(m, b, g, it, CRLF);
      if r == 0 {
        extra := 2;
        return;
      }
      NoEolNext(s, Crlf, start.pos, it.pos);
      var p := it.pos;
      ok, it := PtrSet(m, b, g, it, 1, Add);
      if !ok {
        NoEolEnd(s, Crlf, start.pos, p + 1);
        return;
      }
    }
  }

  /** evbuffer_search_eol: the first terminator of the given style at or after start, and how long it is */
  method SearchEol(m: Memory, b: Evbuffer, ghost g: Abs, start: Option<EvPtr>, style: EolStyle)
    returns (it: EvPtr, eolLen: nat)
    requires b.Valid(m, g) && b.totalLen <= SIZE_MAX && (start.Some? ==> Pointer(g.cells, start.value))
    ensures var s, lo := g.Contents(), if start.Some? then start.value.pos else 0;
      if it.pos < 0 then it.pos == -1 && eolLen == 0 && NoEol(s, style, lo, |s| + 1)
      else lo <= it.pos <= |s| && eolLen == EolAt(s, style, it.pos) > 0 && NoEol(s, style, lo, it.pos)
    ensures it.pos >= 0 ==> Pointer(g.cells, it)
  {
    hide Bytes, BytesTo, Seg, Sound, Spare, Cell.Data, Cell.Ok, Marked, Points, NoEol, NoneIn, Wanted, Occurs, EolAt;
    ghost var s := g.Contents();
    it := if start.Some? then start.value else EvPtr(0, b.first, 0);
    StartAt(g.cells);
    assert Pointer(g.cells, it) by { if start.None? { assert Points(g.cells, it, 0); } }
    PointerPos(g.cells, it);
    ghost var lo := it.pos;
    NoEolNone(s, style, lo);
    eolLen := 0;
    var ok, from := false, it;
    match style {
      case Any =>
        ok, it := FindIn(m, b, g, from, None);
        NoEolHere(s, style, None, lo, lo, if ok then it.pos else |s|);
        if ok {
          EolFound(s, style, None, it.pos);
          EolAtAny(s, it.pos);
          var count := StrspnEol(m, b, g, it);
          eolLen := count;
        }
      case CrlfStrict =>
        it := Search(m, b, g, CRLF, Some(from));
        ok := it.pos >= 0;
        NoEolMatch(s, lo, if ok then it.pos else |s| + 1);
        if ok {
          OccursWithin(s, CRLF, it.pos);
          EolAtStrict(s, it.pos);
          eolLen := 2;
        }
      case Crlf =>
        ok, it, eolLen := SearchCrlf(m, b, g, from);
        if !ok { eolLen := 0; }
      case Lf =>
        ok, it := FindIn(m, b, g, from, Some(LF));
        NoEolHere(s, style, Some(LF), lo, lo, if ok then it.pos else |s|);
        if ok {
          EolFound(s, style, Some(LF), it.pos);
          eolLen := 1;
        }
    }
    if !ok {
      if !style.Crlf? && !style.CrlfStrict? { NoEolEnd(s, style, lo, |s|); }
      it := it.(pos := -1);
    }
  }

  lemma PointerPos(cs: seq<Cell>, p: EvPtr)
    requires Pointer(cs, p)
    ensures p.pos >= 0
  {}

  lemma EolAtAny(s: seq<byte>, p: nat)
    requires p <= |s|
    ensures EolAt(s, Any, p) == EolRun(s, p)
  {}

  lemma EolAtStrict(s: seq<byte>, p: nat)
    requires p <= |s| && Occurs(s, CRLF, p)
    ensures EolAt(s, CrlfStrict, p) == 2
  {}

  /** No byte of s is c. */
  ghost predicate Lacks(s: seq<byte>, c: byte)
  {
    forall i :: 0 <= i < |s| ==> s[i] != c
  }

  /** Nowhere in s is a 13 with a 10 behind it. */
  ghost predicate NoPair(s: seq<byte>)
  {
    forall i :: 0 <= i < |s| - 1 ==> !(s[i] == 13 && s[i + 1] == 10)
  }

  /**
   s is the first line, its terminator and the rest.  The terminator is a 10; or a 13 and a 10; or the one or the other,
   with the 13 if there is one; or a run, as long as can be, of 13s and 10s.
   */
  ghost predicate FirstLine(s: seq<byte>, style: EolStyle, line: seq<byte>, rest: seq<byte>)
  {
    match style
    case Lf => s == line + [10] + rest && Lacks(line, 10)
    case CrlfStrict => s == line + [13, 10] + rest && NoPair(line + [13])
    case Crlf =>
      && Lacks(line, 10)
      && (s == line + [13, 10] + rest || (s == line + [10] + rest && (line == [] || line[|line| - 1] != 13)))
    case Any =>
      && Lacks(line, 10) && Lacks(line, 13)
      && (rest == [] || (rest[0] != 10 && rest[0] != 13))
      && |line| + |rest| < |s| && line <= s && s[|s| - |rest|..] == rest
      && forall i :: |line| <= i < |s| - |rest| ==> s[i] == 10 || s[i] == 13
  }

  /** There is no line terminator. */
  ghost predicate NoLine(s: seq<byte>, style: EolStyle)
  {
    match style
    case Lf => Lacks(s, 10)
    case CrlfStrict => NoPair(s)
    case Crlf => Lacks(s, 10)
    case Any => Lacks(s, 10) && Lacks(s, 13)
  }

  lemma NoLineIs(s: seq<byte>, style: EolStyle)
    requires NoEol(s, style, 0, |s| + 1)
    ensures NoLine(s, style)
  {
    forall i | 0 <= i < |s|
      ensures !style.CrlfStrict? ==> s[i] != 10
      ensures style.Any? ==> s[i] != 13
      ensures style.CrlfStrict? && i + 1 < |s| ==> !(s[i] == 13 && s[i + 1] == 10) {
      assert EolAt(s, style, i) == 0;
      PairAt(s, i);
    }
  }

  lemma PairAt(s: seq<byte>, i: nat)
    requires i < |s|
    ensures Occurs(s, CRLF, i) <==> i + 1 < |s| && s[i] == 13 && s[i + 1] == 10
  {
    if i + 2 <= |s| { assert s[i..i + 2] == [s[i], s[i + 1]]; }
  }

  /** The run is of the two bytes, and ends before another or at the end. */
  lemma {:induction false} EolRunIs(s: seq<byte>, p: nat)
    requires p <= |s|
    ensures forall i :: p <= i < p + EolRun(s, p) ==> s[i] == 10 || s[i] == 13
    ensures var e := p + EolRun(s, p); e < |s| ==> s[e] != 10 && s[e] != 13
    decreases |s| - p
  {
    if p < |s| && IsEolChar(s[p]) { EolRunIs(s, p + 1); }
  }

  lemma FirstLineIs(s: seq<byte>, style: EolStyle, p: nat)
    requires p <= |s| && EolAt(s, style, p) > 0 && NoEol(s, style, 0, p)
    ensures FirstLine(s, style, s[..p], s[p + EolAt(s, style, p)..])
  {
    var line, rest := s[..p], s[p + EolAt(s, style, p)..];
    forall i | 0 <= i < p ensures EolAt(s, style, i) == 0 && line[i] == s[i] {}
    if p < |s| { PairAt(s, p); }
    match style {
      case Lf =>
      case CrlfStrict =>
        forall i | 0 <= i < p ensures !(line[i] == 13 && (line + [13])[i + 1] == 10) { PairAt(s, i); }
      case Crlf =>
        if p > 0 { PairAt(s, p - 1); }
      case Any => EolRunIs(s, p);
    }
  }

  lemma TwoCuts(s: seq<byte>, text: seq<byte>, mid: seq<byte>, extra: nat, rest: seq<byte>)
    requires s == text + mid && extra <= |mid| && rest == mid[extra..]
    ensures |text| + extra <= |s| && s == text + s[|text|..|text| + extra] + rest
    ensures s[..|text|] == text && s[|text| + extra..] == rest
  {}

  /** evbuffer_readln: cuts the first line off the front, with its terminator; without one, changes nothing. */
  method Readln(m: Memory, b: Evbuffer, ghost g: Abs, style: EolStyle)
    returns (line: Option<seq<byte>>, m': Memory, b': Evbuffer, ghost g': Abs)
    requires b.Valid(m, g) && b.totalLen <= SIZE_MAX
    ensures if line.None? then m' == m && b' == b else |line.value| + b'.totalLen < b.totalLen
    ensures b'.Valid(m', g') && Kept(m, g.cells, m', g'.cells)
    ensures line.None? ==> m' == m && b' == b && g' == g && NoEol(g.Contents(), style, 0, |g.Contents()| + 1)
    ensures line.Some? ==> var s, p := g.Contents(), |line.value|;
      && p <= |s| && EolAt(s, style, p) > 0 && NoEol(s, style, 0, p)
      && s == line.value + s[p..p + EolAt(s, style, p)] + g'.Contents()
    ensures line.Some? ==> FirstLine(g.Contents(), style, line.value, g'.Contents())
    ensures line.None? ==> NoLine(g.Contents(), style)
    ensures g.Tight() ==> g'.Tight()
    ensures g.Packed() ==> g'.Packed()
  {
    hide Bytes, BytesTo, Seg, Sound, Kept, Spare, Addrs, Cell.Data, Cell.Ok, Marked, NoEol, EolAt, Abs.Tight,
      Abs.Packed, FirstLine, NoLine;
    line, m', b', g' := None, m, b, g;
    KeptAll(m, g.cells, NULL);
    var it, extra := SearchEol(m, b, g, None, style);
    if it.pos < 0 {
      NoLineIs(g.Contents(), style);
      return;
    }
    FirstLineIs(g.Contents(), style, it.pos);
    var text;
    text, m', b', g' := Remove(m, b, g, it.pos);
    ghost var m1, g1 := m', g';
    m', b', g' := Drain(m', b', g', extra);
    KeptSteps(m, g.cells, m1, g1.cells, m', g'.cells);
    line := Some(text);
    TwoCuts(g.Contents(), text, g1.Contents(), extra, g'.Contents());
  }
}
