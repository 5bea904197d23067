/** The requests in flight: circular doubly linked lists, one for each remainder of the transaction id. */
module DnsInflight {
  import opened Basics

  /** struct request: its transaction id and its place in a list */
  datatype Request = Request(transId: nat, next: Ptr, prev: Ptr)

  type Requests = map<Ptr, Request>

  // ----- one list

  function After(ids: seq<Ptr>, i: nat): (p: Ptr)
    requires i < |ids|
  {
    if i + 1 < |ids| then ids[i + 1] else ids[0]
  }

  function Before(ids: seq<Ptr>, i: nat): (p: Ptr)
    requires i < |ids|
  {
    if i > 0 then ids[i - 1] else ids[|ids| - 1]
  }

  ghost predicate Linked(m: Requests, ids: seq<Ptr>, i: nat)
    requires i < |ids|
  {
    ids[i] in m && ids[i] != NULL && m[ids[i]].next == After(ids, i) && m[ids[i]].prev == Before(ids, i)
  }

  /** head leads round the requests ids, both ways. */
  ghost predicate Ring(m: Requests, head: Ptr, ids: seq<Ptr>)
  {
    && (if ids == [] then head == NULL else head == ids[0])
    && Distinct(ids)
    && forall i :: 0 <= i < |ids| ==> Linked(m, ids, i)
  }

  lemma RingSame(m: Requests, m': Requests, head: Ptr, ids: seq<Ptr>)
    requires Ring(m, head, ids) && forall p :: p in ids && p in m ==> p in m' && m'[p] == m[p]
    ensures Ring(m', head, ids)
  {
    forall i | 0 <= i < |ids| ensures Linked(m', ids, i) {
      assert Linked(m, ids, i) && ids[i] in ids;
    }
  }

  /** evdns_request_insert */
  method Insert(m: Requests, req: Ptr, head: Ptr, ghost ids: seq<Ptr>) returns (m': Requests, head': Ptr)
    requires Ring(m, head, ids) && req in m && req != NULL && req !in ids
    ensures Ring(m', head', ids + [req]) && m'.Keys == m.Keys
    ensures forall p :: p in m ==> m'[p].transId == m[p].transId && (p != req && p !in ids ==> m'[p] == m[p])
  {
    m', head' := m, head;
    if head == NULL {
      assert ids != [] ==> Linked(m, ids, 0);
      head' := req;
      m' := m'[req := m'[req].(next := req, prev := req)];
      return;
    }
    var n := |ids|;
    assert Linked(m, ids, 0) && Linked(m, ids, n - 1);
    m' := m'[req := m'[req].(prev := m'[head].prev)];
    var last := m'[req].prev;
    m' := m'[last := m'[last].(next := req)];
    m' := m'[req := m'[req].(next := head)];
    m' := m'[head := m'[head].(prev := req)];
    ghost var ids' := ids + [req];
    forall i | 0 <= i < |ids'| ensures Linked(m', ids', i) {
      if i < n { assert Linked(m, ids, i); }
    }
  }

  lemma AfterIsAnother(ids: seq<Ptr>, k: nat)
    requires Distinct(ids) && k < |ids| && |ids| > 1
    ensures After(ids, k) != ids[k]
  {}

  /** evdns_request_remove */
  method Remove(m: Requests, req: Ptr, head: Ptr, ghost ids: seq<Ptr>) returns (m': Requests, head': Ptr)
    requires Ring(m, head, ids) && req in ids
    ensures Ring(m', head', Without(ids, req)) && m'.Keys == m.Keys
    ensures forall p :: p in m ==> m'[p].transId == m[p].transId && (p !in ids ==> m'[p] == m[p])
    ensures req in m && m'[req].next == NULL && m'[req].prev == NULL
  {
    hide Distinct;
    m', head' := m, head;
    ghost var k := IndexIn(ids, req);
    assert Linked(m, ids, k);
    LinksOf(m, ids, k);
    if m[req].next == req {
      head' := NULL;
    } else {
      var next, prev := m[req].next, m[req].prev;
      m' := m'[next := m'[next].(prev := prev)];
      m' := m'[prev := m'[prev].(next := next)];
      if head' == req {
        head' := next;
      }
    }
    m' := m'[req := m'[req].(next := NULL, prev := NULL)];
    ClosedUp(m, ids, k, m');
    ClosedRing(m', head', ids, k);
    WithoutAt(ids, req);
  }

  lemma LinksOf(m: Requests, ids: seq<Ptr>, k: nat)
    requires Distinct(ids) && k < |ids| && forall i :: 0 <= i < |ids| ==> Linked(m, ids, i)
    ensures After(ids, k) in m && Before(ids, k) in m && After(ids, k) in ids && Before(ids, k) in ids
    ensures After(ids, k) != NULL
    ensures (After(ids, k) == ids[k] <==> |ids| == 1) && forall i :: 0 < i < |ids| ==> ids[i] != ids[0]
    ensures |ids| > 1 ==> Before(ids, k) != ids[k]
  {
    var n := |ids|;
    assert Linked(m, ids, if k + 1 < n then k + 1 else 0) && Linked(m, ids, if k > 0 then k - 1 else n - 1);
    if n > 1 { AfterIsAnother(ids, k); }
  }

  lemma ClosedUp(m: Requests, ids: seq<Ptr>, k: nat, m': Requests)
    requires Distinct(ids) && k < |ids| && forall i :: 0 <= i < |ids| ==> Linked(m, ids, i)
    requires After(ids, k) in m && Before(ids, k) in m && ids[k] in m
    requires m' == var req, next, prev := ids[k], After(ids, k), Before(ids, k);
      if next == req then m[req := m[req].(next := NULL, prev := NULL)]
      else
        var m1 := m[next := m[next].(prev := prev)];
        var m2 := m1[prev := m1[prev].(next := next)];
        m2[req := m2[req].(next := NULL, prev := NULL)]
    ensures forall i :: 0 <= i < |ids| && i != k ==> Closed(m', ids, k, i)
  {
    LinksOf(m, ids, k);
    forall i | 0 <= i < |ids| && i != k ensures Closed(m', ids, k, i) {
      assert Linked(m, ids, i) && Linked(m, ids, k);
      AroundIs(ids, i, k);
    }
  }

  /** One request comes after another exactly if the other comes before it. */
  lemma AroundIs(ids: seq<Ptr>, i: nat, k: nat)
    requires Distinct(ids) && i < |ids| && k < |ids| && i != k
    ensures After(ids, i) == ids[k] <==> Before(ids, k) == ids[i]
    ensures After(ids, k) == ids[i] <==> Before(ids, i) == ids[k]
  {}

  /** What evdns_request_remove leaves at place i of a list whose k-th request it takes off. */
  ghost predicate Closed(m: Requests, ids: seq<Ptr>, k: nat, i: nat)
    requires k < |ids| && i < |ids|
  {
    && ids[i] in m && ids[i] != NULL
    && m[ids[i]].next == (if After(ids, i) == ids[k] then After(ids, k) else After(ids, i))
    && m[ids[i]].prev == (if Before(ids, i) == ids[k] then Before(ids, k) else Before(ids, i))
  }

  /** The list closed up over its k-th request. */
  lemma Unlinked(m: Requests, ids: seq<Ptr>, k: nat)
    requires Distinct(ids) && k < |ids| && forall i :: 0 <= i < |ids| && i != k ==> Closed(m, ids, k, i)
    ensures var w := ids[..k] + ids[k + 1..]; forall i :: 0 <= i < |w| ==> Linked(m, w, i)
  {
    var w := ids[..k] + ids[k + 1..];
    forall i | 0 <= i < |w| ensures Linked(m, w, i) {
      var j := if i < k then i else i + 1;
      assert w[i] == ids[j] && Closed(m, ids, k, j);
    }
  }

  lemma ClosedRing(m: Requests, head: Ptr, ids: seq<Ptr>, k: nat)
    requires Distinct(ids) && k < |ids| && forall i :: 0 <= i < |ids| && i != k ==> Closed(m, ids, k, i)
    requires head == if |ids| == 1 then NULL else if k == 0 then After(ids, k) else ids[0]
    ensures Ring(m, head, DropAt(ids, k))
  {
    Unlinked(m, ids, k);
    var w := DropAt(ids, k);
    forall i, j | 0 <= i < j < |w| ensures w[i] != w[j] {
      assert w[i] == ids[if i < k then i else i + 1] && w[j] == ids[if j < k then j else j + 1];
    }
  }

  lemma NotRoundYet(ids: seq<Ptr>, i: nat)
    requires Distinct(ids) && i + 1 < |ids|
    ensures After(ids, i) == ids[i + 1] != ids[0]
  {}

  /** The walk of request_find_from_trans_id, once round the list */
  method FindIn(m: Requests, head: Ptr, ghost ids: seq<Ptr>, transId: nat) returns (req: Ptr)
    requires Ring(m, head, ids)
    ensures if req == NULL then forall p :: p in ids ==> p in m && m[p].transId != transId
            else req in m && req in ids && m[req].transId == transId
  {
    hide Distinct, After;
    req := head;
    var startedAt := req;
    if req == NULL {
      EmptyRing(m, ids);
      return;
    }
    ghost var i := 0;
    while true
      invariant i < |ids| && req == ids[i] && startedAt == ids[0]
      invariant forall k :: 0 <= k < i ==> ids[k] in m && m[ids[k]].transId != transId
      decreases |ids| - i
    {
      assert Linked(m, ids, i) && ids[i] in ids;
      if m[req].transId == transId {
        return;
      }
      req := m[req].next;
      if i + 1 < |ids| { NotRoundYet(ids, i); } else { RoundAgain(ids); }
      if req == startedAt {
        return NULL;
      }
      i := i + 1;
    }
  }

  lemma EmptyRing(m: Requests, ids: seq<Ptr>)
    requires Ring(m, NULL, ids)
    ensures ids == []
  {
    assert ids != [] ==> Linked(m, ids, 0);
  }

  lemma RoundAgain(ids: seq<Ptr>)
    requires ids != []
    ensures After(ids, |ids| - 1) == ids[0]
  {}

  // ----- all the lists

  /** Each list holds requests of one remainder. */
  ghost predicate Buckets(m: Requests, heads: seq<Ptr>, rings: seq<seq<Ptr>>)
  {
    && |heads| == |rings| > 0
    && forall b :: 0 <= b < |rings| ==> Bucket(m, heads[b], rings[b], b, |rings|)
  }

  ghost predicate Bucket(m: Requests, head: Ptr, ids: seq<Ptr>, b: nat, n: nat)
    requires n > 0
  {
    Ring(m, head, ids) && forall p :: p in ids ==> p in m && p != NULL && m[p].transId % n == b
  }

  /** The requests in flight. */
  ghost predicate Holds(m: Requests, rings: seq<seq<Ptr>>, p: Ptr)
    requires |rings| > 0
  {
    p in m && p in rings[m[p].transId % |rings|]
  }

  /** Other requests change, or a list that they are not on. */
  lemma BucketSame(m: Requests, m': Requests, head: Ptr, ids: seq<Ptr>, b: nat, n: nat)
    requires n > 0 && Bucket(m, head, ids, b, n) && forall p :: p in ids && p in m ==> p in m' && m'[p] == m[p]
    ensures Bucket(m', head, ids, b, n)
  {
    RingSame(m, m', head, ids);
  }

  lemma InsertBucket(m: Requests, heads: seq<Ptr>, rings: seq<seq<Ptr>>, req: Ptr, m': Requests, head': Ptr)
    requires Buckets(m, heads, rings) && req in m && req != NULL && !Holds(m, rings, req)
    requires m'.Keys == m.Keys && forall p :: p in m ==> m'[p].transId == m[p].transId
    requires var b := m[req].transId % |rings|;
      Ring(m', head', rings[b] + [req]) && forall p :: p in m && p != req && p !in rings[b] ==> m'[p] == m[p]
    ensures var b := m[req].transId % |rings|;
      var rings' := rings[b := rings[b] + [req]];
      && Buckets(m', heads[b := head'], rings')
      && forall p :: p in m ==> (Holds(m', rings', p) <==> p == req || Holds(m, rings, p))
  {
    var n, b := |rings|, m[req].transId % |rings|;
    var heads', rings' := heads[b := head'], rings[b := rings[b] + [req]];
    forall c | 0 <= c < n ensures Bucket(m', heads'[c], rings'[c], c, n) {
      assert Bucket(m, heads[c], rings[c], c, n) && Bucket(m, heads[b], rings[b], b, n);
      if c != b { BucketSame(m, m', heads[c], rings[c], c, n); }
    }
  }

  lemma RemoveBucket(m: Requests, heads: seq<Ptr>, rings: seq<seq<Ptr>>, req: Ptr, m': Requests, head': Ptr)
    requires Buckets(m, heads, rings) && Holds(m, rings, req)
    requires m'.Keys == m.Keys && forall p :: p in m ==> m'[p].transId == m[p].transId
    requires var b := m[req].transId % |rings|;
      Ring(m', head', Without(rings[b], req)) && forall p :: p in m && p !in rings[b] ==> m'[p] == m[p]
    ensures var b := m[req].transId % |rings|;
      var rings' := rings[b := Without(rings[b], req)];
      && Buckets(m', heads[b := head'], rings')
      && forall p :: p in m ==> (Holds(m', rings', p) <==> p != req && Holds(m, rings, p))
  {
    hide Without;
    var n, b := |rings|, m[req].transId % |rings|;
    var heads', rings' := heads[b := head'], rings[b := Without(rings[b], req)];
    assert Bucket(m, heads[b], rings[b], b, n);
    WithoutIs(rings[b], req);
    forall c | 0 <= c < n ensures Bucket(m', heads'[c], rings'[c], c, n) {
      assert Bucket(m, heads[c], rings[c], c, n);
      if c != b { BucketSame(m, m', heads[c], rings[c], c, n); }
    }
  }

  lemma BucketsSame(m: Requests, m': Requests, heads: seq<Ptr>, rings: seq<seq<Ptr>>)
    requires Buckets(m, heads, rings) && m'.Keys == m.Keys
    requires forall p :: p in m ==> m'[p].transId == m[p].transId && (Holds(m, rings, p) ==> m'[p] == m[p])
    ensures Buckets(m', heads, rings) && forall p :: p in m ==> (Holds(m', rings, p) <==> Holds(m, rings, p))
  {
    forall b | 0 <= b < |rings| ensures Bucket(m', heads[b], rings[b], b, |rings|) {
      assert Bucket(m, heads[b], rings[b], b, |rings|);
      BucketSame(m, m', heads[b], rings[b], b, |rings|);
    }
  }

  /** Two sets of lists that share no request, and together hold those in all. */
  ghost predicate Shared(m: Requests, heads: seq<Ptr>, rings: seq<seq<Ptr>>, heads': seq<Ptr>, rings': seq<seq<Ptr>>,
                         all: set<Ptr>)
  {
    && Buckets(m, heads, rings) && Buckets(m, heads', rings')
    && forall p :: p in m ==>
      (p in all <==> Holds(m, rings, p) || Holds(m, rings', p)) && !(Holds(m, rings, p) && Holds(m, rings', p))
  }

  /** One turn of the inner loop of evdns_base_set_max_requests_inflight */
  method MoveOne(m: Requests, heads: seq<Ptr>, ghost rings: seq<seq<Ptr>>, heads': seq<Ptr>,
                 ghost rings': seq<seq<Ptr>>, ghost all: set<Ptr>, i: nat)
    returns (m2: Requests, heads2: seq<Ptr>, ghost rings2: seq<seq<Ptr>>, heads2': seq<Ptr>,
             ghost rings2': seq<seq<Ptr>>)
    requires Shared(m, heads, rings, heads', rings', all) && i < |heads| && heads[i] != NULL
    ensures Shared(m2, heads2, rings2, heads2', rings2', all)
    ensures m2.Keys == m.Keys && forall p :: p in m ==> m2[p].transId == m[p].transId
    ensures |heads2| == |heads| && |heads2'| == |heads'| && |rings2| == |rings| && |rings2[i]| < |rings[i]|
    ensures forall c :: 0 <= c < |rings| && c != i ==> rings2[c] == rings[c]
  {
    hide Without, Buckets, Holds, Ring, Bucket;
    var req := heads[i];
    FirstOf(m, heads, rings, i);
    var head;
    m2, head := Remove(m, req, heads[i], rings[i]);
    RemoveBucket(m, heads, rings, req, m2, head);
    heads2 := heads[i := head];
    rings2 := rings[i := Without(rings[i], req)];
    InBucket(m, heads, rings, i);
    BucketsSame(m, m2, heads', rings');
    ghost var m1 := m2;
    var b := m2[req].transId % |heads'|;
    BucketOf(m1, heads', rings', req);
    m2, head := Insert(m2, req, heads'[b], rings'[b]);
    InsertBucket(m1, heads', rings', req, m2, head);
    heads2' := heads'[b := head];
    rings2' := rings'[b := rings'[b] + [req]];
    InBucket(m1, heads', rings', b);
    BucketsSame(m1, m2, heads2, rings2);
  }

  lemma FirstOf(m: Requests, heads: seq<Ptr>, rings: seq<seq<Ptr>>, i: nat)
    requires Buckets(m, heads, rings) && i < |heads| && heads[i] != NULL
    ensures |rings| == |heads| && Ring(m, heads[i], rings[i]) && heads[i] in rings[i] && heads[i] in m
    ensures m[heads[i]].transId % |rings| == i
    ensures Holds(m, rings, heads[i]) && |Without(rings[i], heads[i])| < |rings[i]|
  {
    assert Bucket(m, heads[i], rings[i], i, |rings|);
    WithoutIs(rings[i], heads[i]);
  }

  lemma InBucket(m: Requests, heads: seq<Ptr>, rings: seq<seq<Ptr>>, b: nat)
    requires Buckets(m, heads, rings) && b < |rings|
    ensures forall p :: p in rings[b] ==> p in m && Holds(m, rings, p)
  {
    assert Bucket(m, heads[b], rings[b], b, |rings|);
  }

  lemma BucketOf(m: Requests, heads: seq<Ptr>, rings: seq<seq<Ptr>>, req: Ptr)
    requires Buckets(m, heads, rings) && req in m
    ensures |heads| == |rings| && Ring(m, heads[m[req].transId % |rings|], rings[m[req].transId % |rings|])
    ensures Holds(m, rings, req) <==> req in rings[m[req].transId % |rings|]
  {
    var b := m[req].transId % |rings|;
    assert Bucket(m, heads[b], rings[b], b, |rings|);
  }

  lemma Counts(m: Requests, heads: seq<Ptr>, rings: seq<seq<Ptr>>)
    requires Buckets(m, heads, rings)
    ensures |heads| == |rings| > 0
    ensures forall b :: 0 <= b < |rings| ==> (heads[b] == NULL <==> rings[b] == [])
    ensures (forall b :: 0 <= b < |rings| ==> rings[b] == []) ==> forall p :: !Holds(m, rings, p)
  {
    forall b | 0 <= b < |rings| ensures heads[b] == NULL <==> rings[b] == [] {
      assert Bucket(m, heads[b], rings[b], b, |rings|);
      if rings[b] != [] { assert Linked(m, rings[b], 0); }
    }
  }

  /** mm_calloc of n list heads */
  function NoHeads(n: nat): (heads: seq<Ptr>)
    ensures |heads| == n && forall b :: 0 <= b < n ==> heads[b] == NULL
  {
    seq(n, _ => NULL)
  }

  ghost function NoRings(n: nat): (rings: seq<seq<Ptr>>)
    ensures |rings| == n && forall b :: 0 <= b < n ==> rings[b] == []
  {
    seq(n, _ => [])
  }

  lemma NoBuckets(m: Requests, n: nat)
    requires n > 0
    ensures Buckets(m, NoHeads(n), NoRings(n)) && forall p :: !Holds(m, NoRings(n), p)
  {
    var heads, rings := NoHeads(n), NoRings(n);
    forall b | 0 <= b < n ensures Bucket(m, heads[b], rings[b], b, n) {}
  }

  class Inflight {
    var reqs: Requests
    /** req_heads, n_req_heads long */
    var heads: seq<Ptr>
    ghost var rings: seq<seq<Ptr>>

    ghost predicate Valid()
      reads this
    {
      Buckets(reqs, heads, rings)
    }

    ghost predicate InFlight(p: Ptr)
      reads this
      requires Valid()
    {
      Holds(reqs, rings, p)
    }

    /** The requests in flight, as a set. */
    ghost function Members(): (s: set<Ptr>)
      requires Valid()
      reads this
      ensures forall p :: p in s <==> p in reqs && InFlight(p)
    {
      set p | p in reqs && InFlight(p)
    }

    /** Only links change. */
    twostate predicate SameRequests()
      reads this
    {
      reqs.Keys == old(reqs).Keys && forall p :: p in reqs ==> reqs[p].transId == old(reqs)[p].transId
    }

    /** request_find_from_trans_id: finds a request exactly if one with that id is in flight. */
    method Find(transId: nat) returns (req: Ptr)
      requires Valid()
      ensures if req == NULL then forall p :: p in reqs && InFlight(p) ==> reqs[p].transId != transId
              else req in reqs && InFlight(req) && reqs[req].transId == transId
    {
      var b := transId % |heads|;
      assert Bucket(reqs, heads[b], rings[b], b, |heads|);
      req := FindIn(reqs, heads[b], rings[b], transId);
    }

    /** evdns_request_insert on the list for its id */
    method InsertRequest(req: Ptr)
      requires Valid() && req in reqs && req != NULL && !InFlight(req)
      modifies this
      ensures Valid() && SameRequests() && |heads| == |old(heads)|
      ensures forall p :: p in reqs ==> (InFlight(p) <==> p == req || old(InFlight(p)))
    {
      var b := reqs[req].transId % |heads|;
      assert Bucket(reqs, heads[b], rings[b], b, |heads|);
      ghost var m := reqs;
      var head;
      reqs, head := Insert(reqs, req, heads[b], rings[b]);
      InsertBucket(m, heads, rings, req, reqs, head);
      heads := heads[b := head];
      rings := rings[b := rings[b] + [req]];
    }

    /** evdns_request_remove on the list for its id */
    method RemoveRequest(req: Ptr)
      requires Valid() && InFlight(req)
      modifies this
      ensures Valid() && SameRequests() && |heads| == |old(heads)|
      ensures forall p :: p in reqs ==> (InFlight(p) <==> p != req && old(InFlight(p)))
    {
      hide Without;
      var b := reqs[req].transId % |heads|;
      assert Bucket(reqs, heads[b], rings[b], b, |heads|);
      ghost var m := reqs;
      var head;
      reqs, head := Remove(reqs, req, heads[b], rings[b]);
      RemoveBucket(m, heads, rings, req, reqs, head);
      heads := heads[b := head];
      rings := rings[b := Without(rings[b], req)];
    }

    constructor (reqs: Requests, maxInflight: int)
      ensures Valid() && this.reqs == reqs && |heads| == NumHeads(maxInflight) && forall p :: p in reqs ==> !InFlight(p)
    {
      var n := NumHeads(maxInflight);
      NoBuckets(reqs, n);
      this.reqs, heads, rings := reqs, NoHeads(n), NoRings(n);
    }

    /** evdns_base_set_max_requests_inflight: every request in flight is moved to its new list. */
    method SetMaxRequestsInflight(maxInflight: int)
      requires Valid()
      modifies this
      ensures Valid() && SameRequests() && |heads| == NumHeads(maxInflight)
      ensures forall p :: p in reqs ==> (InFlight(p) <==> old(InFlight(p)))
    {
      hide Buckets, Holds;
      var n := NumHeads(maxInflight);
      var m, oldHeads, newHeads := reqs, heads, NoHeads(n);
      ghost var oldRings, newRings := rings, NoRings(n);
      NoBuckets(m, n);
      Counts(m, oldHeads, oldRings);
      ghost var all := set p | p in m && Holds(m, oldRings, p);
      var oldN := |heads|;
      ghost var m0 := m;
      for i := 0 to oldN
        invariant Shared(m, oldHeads, oldRings, newHeads, newRings, all) && |oldRings| == |oldHeads| == oldN
        invariant |newHeads| == n
        invariant m.Keys == m0.Keys && forall p :: p in m ==> m[p].transId == m0[p].transId
        invariant forall c :: 0 <= c < i ==> oldRings[c] == []
      {
        Counts(m, oldHeads, oldRings);
        while oldHeads[i] != NULL
          invariant Shared(m, oldHeads, oldRings, newHeads, newRings, all) && |oldRings| == |oldHeads| == oldN
          invariant |newHeads| == n
          invariant m.Keys == m0.Keys && forall p :: p in m ==> m[p].transId == m0[p].transId
          invariant forall c :: 0 <= c < i ==> oldRings[c] == []
          decreases |oldRings[i]|
        {
          m, oldHeads, oldRings, newHeads, newRings := MoveOne(m, oldHeads, oldRings, newHeads, newRings, all, i);
        }
        Counts(m, oldHeads, oldRings);
      }
      Counts(m, oldHeads, oldRings);
      Counts(m, newHeads, newRings);
      reqs, heads, rings := m, newHeads, newRings;
    }
  }

  /** (maxinflight + 4) / 5, for at least one */
  function NumHeads(maxInflight: int): (n: nat)
    ensures n > 0 && (maxInflight >= 1 ==> 5 * (n - 1) < maxInflight <= 5 * n)
  {
    ((if maxInflight < 1 then 1 else maxInflight) + 4) / 5
  }

  // ----- runs

  datatype Op = OpInsert(req: Ptr) | OpRemove(req: Ptr) | OpResize(maxInflight: int) | OpFind(transId: nat)

  /** A request is put in flight that is not, and taken off if it is. */
  predicate Permitted(m: Requests, s: set<Ptr>, op: Op)
  {
    match op
    case OpInsert(req) => req in m && req != NULL && req !in s
    case OpRemove(req) => req in s
    case _ => true
  }

  /** The same operation on a set. */
  function SetAfter(s: set<Ptr>, op: Op): (s': set<Ptr>)
  {
    match op
    case OpInsert(req) => s + {req}
    case OpRemove(req) => s - {req}
    case _ => s
  }

  function SetAll(s: set<Ptr>, ops: seq<Op>, k: nat): (s': set<Ptr>)
    requires k <= |ops|
  {
    if k == 0 then s else SetAfter(SetAll(s, ops, k - 1), ops[k - 1])
  }

  /** A request of s with this id; or NULL, for there is none. */
  ghost predicate Answers(m: Requests, s: set<Ptr>, transId: nat, req: Ptr)
  {
    if req == NULL then forall p :: p in s && p in m ==> m[p].transId != transId
    else req in s && req in m && m[req].transId == transId
  }

  /** With every id in flight once, there is one answer: the lists are a map from ids to requests. */
  lemma OneAnswer(m: Requests, s: set<Ptr>, transId: nat, req: Ptr, req': Ptr)
    requires NULL !in s && s <= m.Keys && forall p, q :: p in s && q in s && m[p].transId == m[q].transId ==> p == q
    requires Answers(m, s, transId, req) && Answers(m, s, transId, req')
    ensures req == req'
  {}

  ghost predicate SameIds(m: Requests, m': Requests)
  {
    m'.Keys == m.Keys && forall p :: p in m ==> m'[p].transId == m[p].transId
  }

  /** One operation does to the set what it says. */
  method RunOne(t: Inflight, op: Op) returns (found: Ptr)
    requires t.Valid() && Permitted(t.reqs, t.Members(), op)
    modifies t
    ensures t.Valid() && SameIds(old(t.reqs), t.reqs) && t.Members() == SetAfter(old(t.Members()), op)
    ensures op.OpFind? ==> Answers(old(t.reqs), old(t.Members()), op.transId, found)
  {
    hide Buckets, Holds;
    found := NULL;
    match op {
      case OpInsert(req) => t.InsertRequest(req);
      case OpRemove(req) => t.RemoveRequest(req);
      case OpResize(maxInflight) => t.SetMaxRequestsInflight(maxInflight);
      case OpFind(transId) => found := t.Find(transId);
    }
  }

  /**
   Over any run the requests in flight are what the operations make of a set, and every search is answered
   from that set.
   */
  method Run(t: Inflight, ops: seq<Op>) returns (found: seq<Ptr>)
    requires t.Valid()
    requires forall k :: 0 <= k < |ops| ==> Permitted(t.reqs, SetAll(t.Members(), ops, k), ops[k])
    modifies t
    ensures t.Valid() && SameIds(old(t.reqs), t.reqs) && t.Members() == SetAll(old(t.Members()), ops, |ops|)
    ensures |found| == |ops|
    ensures forall k :: 0 <= k < |ops| && ops[k].OpFind? ==>
      Answers(old(t.reqs), SetAll(old(t.Members()), ops, k), ops[k].transId, found[k])
  {
    found := [];
    ghost var m, s := t.reqs, t.Members();
    for k := 0 to |ops|
      invariant t.Valid() && SameIds(m, t.reqs) && t.Members() == SetAll(s, ops, k) && |found| == k
      invariant forall i :: 0 <= i < k && ops[i].OpFind? ==>
        Answers(m, SetAll(s, ops, i), ops[i].transId, found[i])
    {
      hide Buckets, Holds, Inflight.Valid, Inflight.Members, SetAfter, Answers;
      assert Permitted(m, SetAll(s, ops, k), ops[k]);
      ghost var m1 := t.reqs;
      var p := RunOne(t, ops[k]);
      SameAnswer(m, m1, SetAll(s, ops, k), ops[k], p);
      found := found + [p];
    }
  }

  lemma SameAnswer(m: Requests, m': Requests, s: set<Ptr>, op: Op, req: Ptr)
    requires SameIds(m, m') && (op.OpFind? ==> Answers(m', s, op.transId, req))
    ensures op.OpFind? ==> Answers(m, s, op.transId, req)
  {}
}
