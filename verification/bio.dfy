/** The block buffer cache of kernel/bio.c as a sequential state machine.

    The cache is a fixed arena of slots spread over `NBUCKET` hash buckets.
    Each bucket's linked chain is a sequence of arena indices, head first.
    Every operation is one atomic step: the spin-locks, the eviction lock and
    the per-slot sleep-lock are left out, and whether the caller holds a
    slot's sleep-lock is passed in as a flag. */
module BufferCache {
  import opened Types
  import opened Chains

  /** Arena size (`NBUF`, three times the largest file-system operation). */
  const NBUF: nat := 30
  /** Number of hash buckets. */
  const NBUCKET: nat := 13

  /** One cache slot (`struct buf`) without its payload and sleep-lock.
      `valid` says whether the payload holds the block's disk content. */
  datatype Buf = Buf(valid: bool, dev: u32, blockno: u32, refcnt: nat, lastuse: u32)

  /** The arena and, for each bucket, the arena indices of its chain. */
  datatype Cache = Cache(bufs: seq<Buf>, buckets: seq<seq<nat>>)

  /** A slot handed out by `bget`, with the cache after the call. */
  datatype Got = Got(cache: Cache, buf: nat)

  /** The position of a chain entry: bucket number, then place in the chain. */
  datatype Pos = Pos(bucket: nat, index: nat)

  /** The bucket of a block: `((dev << 27) | blockno) % 13` in 32-bit
      unsigned arithmetic, so the high bits of `dev` are shifted out. */
  function Hash(dev: u32, blockno: u32): (k: nat)
    ensures k < NBUCKET
  {
    var key: bv32 := ((dev as bv32) << 27) | (blockno as bv32);
    key as int % NBUCKET
  }

  function HashOf(b: Buf): nat
  {
    Hash(b.dev, b.blockno)
  }

  predicate Matches(b: Buf, dev: u32, blockno: u32)
  {
    b.dev == dev && b.blockno == blockno
  }

  /** The table has all its buckets and every chain entry names a slot. */
  predicate Shaped(c: Cache)
  {
    && |c.buckets| == NBUCKET
    && forall k, p :: 0 <= k < |c.buckets| && 0 <= p < |c.buckets[k]| ==> c.buckets[k][p] < |c.bufs|
  }

  /** Every slot is linked exactly once into exactly one bucket. */
  ghost predicate ExactlyOnce(c: Cache)
  {
    forall i :: 0 <= i < |c.bufs| ==> multiset(Flatten(c.buckets))[i] == 1
  }

  /** Every slot sits in the bucket its identity hashes to, which is the
      bucket whose lock `brelse`, `bpin` and `bunpin` take. */
  ghost predicate Hashed(c: Cache)
    requires Shaped(c)
  {
    forall k, p :: 0 <= k < |c.buckets| && 0 <= p < |c.buckets[k]| ==> HashOf(c.bufs[c.buckets[k][p]]) == k
  }

  /** The cache invariant. */
  ghost predicate Wf(c: Cache)
  {
    Shaped(c) && ExactlyOnce(c) && Hashed(c)
  }

  /** Each slot holding valid content is the one `bget` finds for its
      identity, so no two valid slots share an identity. */
  ghost predicate ValidFound(c: Cache)
    requires Shaped(c)
  {
    forall i :: 0 <= i < |c.bufs| && c.bufs[i].valid ==> Lookup(c, c.bufs[i].dev, c.bufs[i].blockno) == Some(i)
  }

  predicate InCache(c: Cache, q: Pos)
  {
    q.bucket < |c.buckets| && q.index < |c.buckets[q.bucket]| && c.buckets[q.bucket][q.index] < |c.bufs|
  }

  /** The slot linked at position `q`. */
  function At(c: Cache, q: Pos): nat
    requires InCache(c, q)
  {
    c.buckets[q.bucket][q.index]
  }

  /** Position `q` holds a slot nobody references: an eviction candidate. */
  predicate Unreferenced(c: Cache, q: Pos)
  {
    InCache(c, q) && c.bufs[At(c, q)].refcnt == 0
  }

  function LastUse(c: Cache, q: Pos): u32
    requires InCache(c, q)
  {
    c.bufs[At(c, q)].lastuse
  }

  /** Scan order: lower bucket first, then earlier in the chain. */
  predicate Before(a: Pos, b: Pos)
  {
    a.bucket < b.bucket || (a.bucket == b.bucket && a.index < b.index)
  }

  /** The eviction rule: `v` is unreferenced, no unreferenced slot has a
      smaller `lastuse`, and every unreferenced slot met earlier in scan
      order has a strictly larger one (the scan keeps the first minimum). */
  ghost predicate IsVictim(c: Cache, v: Pos)
  {
    && Unreferenced(c, v)
    && (forall q :: Unreferenced(c, q) ==> LastUse(c, v) <= LastUse(c, q))
    && (forall q :: Unreferenced(c, q) && Before(q, v) ==> LastUse(c, v) < LastUse(c, q))
  }

  /** `best` is the candidate the scan holds once it has visited every
      position before `limit`. */
  ghost predicate BestBefore(c: Cache, best: Option<Pos>, limit: Pos)
  {
    match best
    case None => forall q :: Unreferenced(c, q) ==> !Before(q, limit)
    case Some(v) =>
      && Unreferenced(c, v) && Before(v, limit)
      && (forall q :: Unreferenced(c, q) && Before(q, limit) ==> LastUse(c, v) <= LastUse(c, q))
      && (forall q :: Unreferenced(c, q) && Before(q, v) ==> LastUse(c, v) < LastUse(c, q))
  }

  /** Position in `chain` of the first slot with identity (dev, blockno). */
  function FindInChain(bufs: seq<Buf>, chain: seq<nat>, dev: u32, blockno: u32): (r: Option<nat>)
    requires forall p :: 0 <= p < |chain| ==> chain[p] < |bufs|
    ensures r.Some? ==> r.value < |chain| && Matches(bufs[chain[r.value]], dev, blockno)
    ensures r.Some? ==> forall q :: 0 <= q < r.value ==> !Matches(bufs[chain[q]], dev, blockno)
    ensures r.None? ==> forall q :: 0 <= q < |chain| ==> !Matches(bufs[chain[q]], dev, blockno)
  {
    if |chain| == 0 then None
    else if Matches(bufs[chain[0]], dev, blockno) then Some(0)
    else
      match FindInChain(bufs, chain[1..], dev, blockno)
      case None => None
      case Some(p) => Some(p + 1)
  }

  /** The slot `bget` finds for (dev, blockno) without evicting: the first
      match in the chain of bucket `Hash(dev, blockno)`. */
  function Lookup(c: Cache, dev: u32, blockno: u32): (r: Option<nat>)
    requires Shaped(c)
    ensures r.Some? ==> r.value < |c.bufs| && Matches(c.bufs[r.value], dev, blockno)
    ensures r.None? ==> forall p :: 0 <= p < |c.buckets[Hash(dev, blockno)]| ==>
                          !Matches(c.bufs[c.buckets[Hash(dev, blockno)][p]], dev, blockno)
  {
    var chain := c.buckets[Hash(dev, blockno)];
    match FindInChain(c.bufs, chain, dev, blockno)
    case None => None
    case Some(p) => Some(chain[p])
  }

  /** A position is the first match of its chain, so `FindInChain` returns it. */
  lemma FirstMatch(bufs: seq<Buf>, chain: seq<nat>, dev: u32, blockno: u32, p: nat)
    requires forall q :: 0 <= q < |chain| ==> chain[q] < |bufs|
    requires p < |chain| && Matches(bufs[chain[p]], dev, blockno)
    requires forall q :: 0 <= q < p ==> !Matches(bufs[chain[q]], dev, blockno)
    ensures FindInChain(bufs, chain, dev, blockno) == Some(p)
  {
  }

  /** The inner loop of the eviction scan over bucket `k`, from chain
      position `p` on. */
  function ScanChain(c: Cache, k: nat, p: nat, best: Option<Pos>): (r: Option<Pos>)
    requires Shaped(c) && k < NBUCKET && p <= |c.buckets[k]|
    requires BestBefore(c, best, Pos(k, p))
    ensures BestBefore(c, r, Pos(k + 1, 0))
    decreases |c.buckets[k]| - p
  {
    if p == |c.buckets[k]| then best
    else
      var q := Pos(k, p);
      var best' :=
        if Unreferenced(c, q) && (best.None? || LastUse(c, q) < LastUse(c, best.value))
        then Some(q) else best;
      ScanChain(c, k, p + 1, best')
  }

  /** The outer loop of the eviction scan, from bucket `k` on. */
  function ScanBuckets(c: Cache, k: nat, best: Option<Pos>): (r: Option<Pos>)
    requires Shaped(c) && k <= NBUCKET
    requires BestBefore(c, best, Pos(k, 0))
    ensures BestBefore(c, r, Pos(NBUCKET, 0))
    decreases NBUCKET - k
  {
    if k == NBUCKET then best
    else ScanBuckets(c, k + 1, ScanChain(c, k, 0, best))
  }

  /** The global least-recently-used search of `bget`. */
  function SelectVictim(c: Cache): (r: Option<Pos>)
    requires Shaped(c)
    ensures r.Some? ==> IsVictim(c, r.value)
    ensures r.None? <==> forall q :: !Unreferenced(c, q)
  {
    ScanBuckets(c, 0, None)
  }

  /** Reassign the victim at `v` to (dev, blockno); if it lives in another
      bucket, unlink it there and push it on the head of the target bucket. */
  function Evict(c: Cache, v: Pos, dev: u32, blockno: u32): (g: Got)
    requires Wf(c) && InCache(c, v)
    ensures Wf(g.cache)
    ensures g.buf == At(c, v)
  {
    var b := At(c, v);
    var c' := Cache(Reassigned(c.bufs, b, dev, blockno), Relinked(c.buckets, v, b, Hash(dev, blockno)));
    EvictKeepsWf(c, v, dev, blockno);
    Got(c', b)
  }

  /** Slot `b` with its new identity, one reference and an invalid payload. */
  function Reassigned(bufs: seq<Buf>, b: nat, dev: u32, blockno: u32): seq<Buf>
    requires b < |bufs|
  {
    bufs[b := bufs[b].(dev := dev, blockno := blockno, refcnt := 1, valid := false)]
  }

  /** The chains after moving the entry at `v` (slot `b`) to the head of
      bucket `key`; unchanged when it is already there. */
  function Relinked(buckets: seq<seq<nat>>, v: Pos, b: nat, key: nat): seq<seq<nat>>
    requires v.bucket < |buckets| && v.index < |buckets[v.bucket]| && key < |buckets|
  {
    if v.bucket != key
    then buckets[v.bucket := Remove(buckets[v.bucket], v.index)][key := [b] + buckets[key]]
    else buckets
  }

  /** Two positions holding the same slot are the same position. */
  lemma SlotAtOnePosition(c: Cache, q1: Pos, q2: Pos)
    requires Wf(c) && InCache(c, q1) && InCache(c, q2)
    ensures At(c, q1) == At(c, q2) ==> q1 == q2
  {
    if At(c, q1) == At(c, q2) && q1 != q2 {
      TwoPositions(c.buckets, q1.bucket, q1.index, q2.bucket, q2.index);
    }
  }

  /** Every slot of the arena is linked into some bucket. */
  lemma SlotLinked(c: Cache, b: nat) returns (q: Pos)
    requires Wf(c) && b < |c.bufs|
    ensures InCache(c, q) && At(c, q) == b
  {
    assert multiset(Flatten(c.buckets))[b] == 1;
    assert b in multiset(Flatten(c.buckets));
    FromFlatten(c.buckets, b);
    var k, p :| 0 <= k < |c.buckets| && 0 <= p < |c.buckets[k]| && c.buckets[k][p] == b;
    q := Pos(k, p);
  }

  /** Moving an entry between chains keeps the multiset of linked slots. */
  lemma RelinkedMultiset(buckets: seq<seq<nat>>, v: Pos, key: nat)
    requires v.bucket < |buckets| && v.index < |buckets[v.bucket]| && key < |buckets|
    ensures forall x :: multiset(Flatten(Relinked(buckets, v, buckets[v.bucket][v.index], key)))[x]
                        == multiset(Flatten(buckets))[x]
  {
    if v.bucket != key {
      forall x
        ensures multiset(Flatten(Relinked(buckets, v, buckets[v.bucket][v.index], key)))[x]
                == multiset(Flatten(buckets))[x]
      {
        RelinkedCount(buckets, v, key, x);
      }
    }
  }

  /** The count of one slot across a move between two different chains. */
  lemma RelinkedCount(buckets: seq<seq<nat>>, v: Pos, key: nat, x: nat)
    requires v.bucket < |buckets| && v.index < |buckets[v.bucket]| && key < |buckets| && v.bucket != key
    ensures multiset(Flatten(Relinked(buckets, v, buckets[v.bucket][v.index], key)))[x]
            == multiset(Flatten(buckets))[x]
  {
    var b: nat := buckets[v.bucket][v.index];
    var chain: seq<nat> := Remove(buckets[v.bucket], v.index);
    var b1: seq<seq<nat>> := buckets[v.bucket := chain];
    var b2: seq<seq<nat>> := b1[key := [b] + buckets[key]];
    assert Relinked(buckets, v, b, key) == b2;
    FlattenUpdate(buckets, v.bucket, chain);
    FlattenUpdate(b1, key, [b] + buckets[key]);
    assert b1[key] == buckets[key];
    var f0: nat := multiset(Flatten(buckets))[x];
    var f1: nat := multiset(Flatten(b1))[x];
    var f2: nat := multiset(Flatten(b2))[x];
    var mv: nat := multiset(buckets[v.bucket])[x];
    var mc: nat := multiset(chain)[x];
    var mb: nat := multiset{b}[x];
    var mk: nat := multiset(buckets[key])[x];
    assert f1 + mv == f0 + mc;
    assert mc + mb == mv;
    assert multiset([b] + buckets[key]) == multiset{b} + multiset(buckets[key]);
    assert f2 + mk == f1 + mb + mk;
  }

  /** Where a linked entry of the relinked table sat before, unless it is
      the moved entry at the head of the target bucket. */
  function OldPos(v: Pos, key: nat, k: nat, p: nat): Pos
    requires v.bucket != key && k == key ==> p > 0
  {
    if v.bucket != key && k == key then Pos(k, p - 1)
    else if v.bucket != key && k == v.bucket && p >= v.index then Pos(k, p + 1)
    else Pos(k, p)
  }

  /** What the relinked table holds at a position: the moved slot at the
      head of the target bucket, elsewhere the entry from `OldPos`. */
  lemma RelinkedAt(c: Cache, v: Pos, key: nat, k: nat, p: nat)
    requires Shaped(c) && InCache(c, v) && key < NBUCKET
    requires var bs := Relinked(c.buckets, v, At(c, v), key); k < |bs| && p < |bs[k]|
    ensures var bs := Relinked(c.buckets, v, At(c, v), key);
            if v.bucket != key && k == key && p == 0 then bs[k][p] == At(c, v)
            else InCache(c, OldPos(v, key, k, p)) && OldPos(v, key, k, p).bucket == k
                 && bs[k][p] == At(c, OldPos(v, key, k, p))
                 && (v.bucket != key ==> OldPos(v, key, k, p) != v)
  {
  }

  lemma EvictPosHashed(c: Cache, v: Pos, dev: u32, blockno: u32, k: nat, p: nat)
    requires Wf(c) && InCache(c, v)
    requires var bs := Relinked(c.buckets, v, At(c, v), Hash(dev, blockno));
             k < |bs| && p < |bs[k]|
    ensures var key := Hash(dev, blockno);
            var bs := Relinked(c.buckets, v, At(c, v), key);
            var bufs := Reassigned(c.bufs, At(c, v), dev, blockno);
            bs[k][p] < |bufs| && HashOf(bufs[bs[k][p]]) == k
  {
    var key := Hash(dev, blockno);
    RelinkedAt(c, v, key, k, p);
    if !(v.bucket != key && k == key && p == 0) {
      SlotAtOnePosition(c, OldPos(v, key, k, p), v);
    }
  }

  lemma EvictKeepsWf(c: Cache, v: Pos, dev: u32, blockno: u32)
    requires Wf(c) && InCache(c, v)
    ensures Wf(Cache(Reassigned(c.bufs, At(c, v), dev, blockno), Relinked(c.buckets, v, At(c, v), Hash(dev, blockno))))
  {
    var b := At(c, v);
    var key := Hash(dev, blockno);
    var c' := Cache(Reassigned(c.bufs, b, dev, blockno), Relinked(c.buckets, v, b, key));
    RelinkedMultiset(c.buckets, v, key);
    forall k, p | 0 <= k < |c'.buckets| && 0 <= p < |c'.buckets[k]|
      ensures c'.buckets[k][p] < |c'.bufs| && HashOf(c'.bufs[c'.buckets[k][p]]) == k
    {
      EvictPosHashed(c, v, dev, blockno, k, p);
    }
  }

  /** `bget`: a cached slot for (dev, blockno) with one more reference, or
      the global least-recently-used unreferenced slot reassigned to it.
      The re-scan of the target bucket under the eviction lock sees the
      same chain as the first scan in this sequential model. */
  function Get(c: Cache, dev: u32, blockno: u32): (r: Result<Got>)
    requires Wf(c)
    ensures r.Err? <==> Lookup(c, dev, blockno).None? && forall q :: !Unreferenced(c, q)
    ensures r.Ok? ==> && Wf(r.value.cache)
                      && |r.value.cache.bufs| == |c.bufs|
                      && Lookup(r.value.cache, dev, blockno) == Some(r.value.buf)
                      && r.value.cache.bufs[r.value.buf].refcnt > 0
  {
    match Lookup(c, dev, blockno)
    case Some(b) =>
      var c' := c.(bufs := c.bufs[b := c.bufs[b].(refcnt := c.bufs[b].refcnt + 1)]);
      SameIdsKeepWf(c, c');
      SameIdsSameLookup(c, c', dev, blockno);
      Ok(Got(c', b))
    case None =>
      match SelectVictim(c)
      case None => Err("bget: no buffers")
      case Some(v) =>
        var g := Evict(c, v, dev, blockno);
        EvictFindsSlot(c, v, dev, blockno);
        Ok(g)
  }

  /** Every slot keeps its identity from `c1` to `c2`. */
  predicate SameIds(c1: Cache, c2: Cache)
  {
    && |c1.bufs| == |c2.bufs|
    && forall i :: 0 <= i < |c1.bufs| ==> c1.bufs[i].dev == c2.bufs[i].dev && c1.bufs[i].blockno == c2.bufs[i].blockno
  }

  /** The invariant depends on the chains and the identities only. */
  lemma SameIdsKeepWf(c1: Cache, c2: Cache)
    requires Wf(c1) && c1.buckets == c2.buckets && SameIds(c1, c2)
    ensures Wf(c2)
  {
    forall k, p | 0 <= k < |c2.buckets| && 0 <= p < |c2.buckets[k]|
      ensures HashOf(c2.bufs[c2.buckets[k][p]]) == k
    {
      assert HashOf(c1.bufs[c1.buckets[k][p]]) == k;
    }
  }

  /** Lookups depend on the chains and the identities only. */
  lemma SameIdsSameLookup(c1: Cache, c2: Cache, dev: u32, blockno: u32)
    requires Shaped(c1) && c1.buckets == c2.buckets && SameIds(c1, c2)
    ensures Shaped(c2) && Lookup(c1, dev, blockno) == Lookup(c2, dev, blockno)
  {
    var chain := c1.buckets[Hash(dev, blockno)];
    match FindInChain(c1.bufs, chain, dev, blockno)
    case None =>
    case Some(p) => FirstMatch(c2.bufs, chain, dev, blockno, p);
  }

  /** After a miss, the lookup of the new identity finds the victim. */
  lemma EvictFindsSlot(c: Cache, v: Pos, dev: u32, blockno: u32)
    requires Wf(c) && InCache(c, v) && Lookup(c, dev, blockno).None?
    ensures Lookup(Evict(c, v, dev, blockno).cache, dev, blockno) == Some(At(c, v))
  {
    var g := Evict(c, v, dev, blockno);
    var key := Hash(dev, blockno);
    var chain := g.cache.buckets[key];
    if v.bucket != key {
      FirstMatch(g.cache.bufs, chain, dev, blockno, 0);
    } else {
      forall q | 0 <= q < v.index
        ensures !Matches(g.cache.bufs[chain[q]], dev, blockno)
      {
        SlotAtOnePosition(c, Pos(key, q), v);
      }
      FirstMatch(g.cache.bufs, chain, dev, blockno, v.index);
    }
  }

  /** `binit`: every bucket emptied, then slots 0 .. NBUF-1 each pushed on
      the head of bucket 0. The identity fields keep the zero value of the
      statically allocated arena, which hashes to bucket 0. */
  method Init() returns (c: Cache)
    ensures Wf(c) && ValidFound(c) && |c.bufs| == NBUF
    ensures forall k :: 1 <= k < NBUCKET ==> c.buckets[k] == []
    ensures |c.buckets[0]| == NBUF
    ensures forall p :: 0 <= p < NBUF ==> c.buckets[0][p] == NBUF - 1 - p
    ensures forall i :: 0 <= i < NBUF ==> c.bufs[i] == Buf(false, 0, 0, 0, 0)
  {
    var buckets: seq<seq<nat>> := [];
    var k := 0;
    while k < NBUCKET
      invariant k <= NBUCKET && |buckets| == k
      invariant forall j :: 0 <= j < k ==> buckets[j] == []
    {
      buckets := buckets + [[]];
      k := k + 1;
    }
    var bufs := seq(NBUF, _ => Buf(false, 0, 0, 0, 0));
    var i := 0;
    while i < NBUF
      invariant i <= NBUF && |buckets| == NBUCKET && |bufs| == NBUF
      invariant forall j :: 0 <= j < NBUF ==> bufs[j] == Buf(false, 0, 0, 0, 0)
      invariant forall j :: 1 <= j < NBUCKET ==> buckets[j] == []
      invariant |buckets[0]| == i
      invariant forall p :: 0 <= p < i ==> buckets[0][p] == i - 1 - p
      invariant forall j :: 0 <= j < i ==> multiset(buckets[0])[j] == 1
      invariant forall j :: j in buckets[0] ==> j < i
    {
      bufs := bufs[i := bufs[i].(lastuse := 0, refcnt := 0)];
      buckets := buckets[0 := [i] + buckets[0]];
      i := i + 1;
    }
    c := Cache(bufs, buckets);
    FlattenOneChain(buckets);
  }

  lemma FlattenOneChain(bs: seq<seq<nat>>)
    requires |bs| > 0 && forall j :: 1 <= j < |bs| ==> bs[j] == []
    ensures Flatten(bs) == bs[0]
  {
    FlattenSplit(bs, 0);
    EmptyChains(bs[1..]);
  }

  lemma {:induction false} EmptyChains(bs: seq<seq<nat>>)
    requires forall j :: 0 <= j < |bs| ==> bs[j] == []
    ensures Flatten(bs) == []
  {
    if |bs| > 0 {
      EmptyChains(bs[1..]);
    }
  }

  /** The result of `bread`: the slot, the cache, and whether the device
      was read to fill the payload. */
  datatype ReadOut = ReadOut(cache: Cache, buf: nat, diskRead: bool)

  /** `bread`: `bget`, then a device read (left out) only when the payload
      is not valid, after which it is valid. */
  function Read(c: Cache, dev: u32, blockno: u32): (r: Result<ReadOut>)
    requires Wf(c)
    ensures r.Err? <==> Get(c, dev, blockno).Err?
    ensures r.Ok? ==> && Wf(r.value.cache)
                      && r.value.buf < |r.value.cache.bufs|
                      && r.value.cache.bufs[r.value.buf].valid
                      && r.value.cache.bufs[r.value.buf].refcnt > 0
                      && Lookup(r.value.cache, dev, blockno) == Some(r.value.buf)
    ensures r.Ok? && !r.value.diskRead ==> Lookup(c, dev, blockno) == Some(r.value.buf) && c.bufs[r.value.buf].valid
  {
    match Get(c, dev, blockno)
    case Err(m) => Err(m)
    case Ok(g) =>
      var b := g.buf;
      if g.cache.bufs[b].valid then
        GetNoEvictWhenValid(c, dev, blockno);
        Ok(ReadOut(g.cache, b, false))
      else
        var c' := g.cache.(bufs := g.cache.bufs[b := g.cache.bufs[b].(valid := true)]);
        SameIdsKeepWf(g.cache, c');
        SameIdsSameLookup(g.cache, c', dev, blockno);
        Ok(ReadOut(c', b, true))
  }

  /** A slot `bget` returns still valid was found, not evicted (eviction
      clears `valid`). */
  lemma GetNoEvictWhenValid(c: Cache, dev: u32, blockno: u32)
    requires Wf(c) && Get(c, dev, blockno).Ok?
    ensures var g := Get(c, dev, blockno).value;
            g.cache.bufs[g.buf].valid ==> Lookup(c, dev, blockno) == Some(g.buf) && c.bufs[g.buf].valid
  {
  }

  /** `bwrite`: panics unless the caller holds the slot's sleep-lock; the
      device write is left out and no bookkeeping changes. */
  function Write(c: Cache, b: nat, holdsLock: bool): (r: Result<Cache>)
    ensures r.Ok? <==> holdsLock
    ensures r.Ok? ==> r.value == c
  {
    if !holdsLock then Err("bwrite") else Ok(c)
  }

  /** `brelse`: panics unless the caller holds the sleep-lock; drops one
      reference and stamps `lastuse` with the tick count when none remain. */
  function Release(c: Cache, b: nat, holdsLock: bool, ticks: u32): (r: Result<Cache>)
    requires Wf(c) && b < |c.bufs| && c.bufs[b].refcnt > 0
    ensures r.Ok? <==> holdsLock
    ensures r.Ok? ==> && Wf(r.value) && SameIds(c, r.value) && r.value.buckets == c.buckets
                      && r.value.bufs[b].refcnt + 1 == c.bufs[b].refcnt
                      && r.value.bufs[b].valid == c.bufs[b].valid
                      && (r.value.bufs[b].refcnt == 0 ==> r.value.bufs[b].lastuse == ticks)
                      && (r.value.bufs[b].refcnt > 0 ==> r.value.bufs[b].lastuse == c.bufs[b].lastuse)
                      && forall j :: 0 <= j < |c.bufs| && j != b ==> r.value.bufs[j] == c.bufs[j]
  {
    if !holdsLock then Err("brelse")
    else
      var n := c.bufs[b].refcnt - 1;
      var lastuse := if n == 0 then ticks else c.bufs[b].lastuse;
      Ok(c.(bufs := c.bufs[b := c.bufs[b].(refcnt := n, lastuse := lastuse)]))
  }

  /** `bpin`: one more reference; nothing else changes. */
  function Pin(c: Cache, b: nat): (c': Cache)
    requires Wf(c) && b < |c.bufs|
    ensures Wf(c') && SameIds(c, c') && c'.buckets == c.buckets
    ensures c'.bufs[b] == c.bufs[b].(refcnt := c.bufs[b].refcnt + 1)
    ensures forall j :: 0 <= j < |c.bufs| && j != b ==> c'.bufs[j] == c.bufs[j]
  {
    c.(bufs := c.bufs[b := c.bufs[b].(refcnt := c.bufs[b].refcnt + 1)])
  }

  /** `bunpin`: one reference fewer; `lastuse` is not restamped. */
  function Unpin(c: Cache, b: nat): (c': Cache)
    requires Wf(c) && b < |c.bufs| && c.bufs[b].refcnt > 0
    ensures Wf(c') && SameIds(c, c') && c'.buckets == c.buckets
    ensures c'.bufs[b] == c.bufs[b].(refcnt := c.bufs[b].refcnt - 1)
    ensures forall j :: 0 <= j < |c.bufs| && j != b ==> c'.bufs[j] == c.bufs[j]
  {
    c.(bufs := c.bufs[b := c.bufs[b].(refcnt := c.bufs[b].refcnt - 1)])
  }
}
