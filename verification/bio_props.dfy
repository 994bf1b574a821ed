/** Properties of the buffer cache that relate several calls: the two
    paths of `bget`, the invariant that a valid slot is the one found for
    its identity, and what it buys (no duplicate valid blocks, re-reads
    served without the device). */
module BufferCacheProps {
  import opened Types
  import opened Chains
  import opened BufferCache

  /** The hash is computed on 32 bits: device 1, block 0 lands in bucket
      (1 << 27) % 13. */
  lemma HashOfDeviceOne()
    ensures Hash(1, 0) == 134217728 % 13 == 8
  {
  }

  /** The shift is 32-bit: device bits above the fifth fall off, so devices
      32 apart share their buckets. */
  lemma HashDropsHighDeviceBits()
    ensures Hash(32, 5) == Hash(0, 5) == 5
    ensures Hash(33, 0) == Hash(1, 0)
  {
  }

  /** The zero identity of the freshly allocated arena hashes to bucket 0,
      where `binit` links every slot. */
  lemma InitialIdentityInBucketZero()
    ensures Hash(0, 0) == 0
  {
  }

  /** The slot whose bucket lock `brelse`, `bpin` and `bunpin` take is the
      bucket that actually links the slot. */
  lemma SlotInHashBucket(c: Cache, b: nat)
    requires Wf(c) && b < |c.bufs|
    ensures b in c.buckets[HashOf(c.bufs[b])]
  {
    var q := SlotLinked(c, b);
    assert c.buckets[q.bucket][q.index] == b;
  }

  /** Under the invariant the bucket scan is complete: `bget` misses
      exactly when no slot of the arena carries the identity, so a miss
      never makes a second slot for a cached block. */
  lemma LookupComplete(c: Cache, dev: u32, blockno: u32)
    requires Wf(c)
    ensures Lookup(c, dev, blockno).None? <==>
              forall i :: 0 <= i < |c.bufs| ==> !Matches(c.bufs[i], dev, blockno)
  {
    if Lookup(c, dev, blockno).None? {
      forall i | 0 <= i < |c.bufs|
        ensures !Matches(c.bufs[i], dev, blockno)
      {
        var q := SlotLinked(c, i);
        assert HashOf(c.bufs[i]) == q.bucket;
      }
    }
  }

  /** Hit path: `bget` returns the first slot of the target chain with
      the requested identity and only adds one reference to it. */
  lemma GetHit(c: Cache, dev: u32, blockno: u32)
    requires Wf(c) && Lookup(c, dev, blockno).Some?
    ensures Get(c, dev, blockno).Ok?
    ensures var g := Get(c, dev, blockno).value;
            var chain := c.buckets[Hash(dev, blockno)];
            && g.buf < |c.bufs|
            && (exists p :: 0 <= p < |chain| && chain[p] == g.buf
                            && (forall q :: 0 <= q < p ==> !Matches(c.bufs[chain[q]], dev, blockno)))
            && Matches(c.bufs[g.buf], dev, blockno)
            && g.cache.buckets == c.buckets
            && g.cache.bufs[g.buf] == c.bufs[g.buf].(refcnt := c.bufs[g.buf].refcnt + 1)
            && forall j :: 0 <= j < |c.bufs| && j != g.buf ==> g.cache.bufs[j] == c.bufs[j]
  {
    var chain := c.buckets[Hash(dev, blockno)];
    var p := FindInChain(c.bufs, chain, dev, blockno).value;
    assert chain[p] == Get(c, dev, blockno).value.buf;
  }

  /** Miss path: the global least-recently-used unreferenced slot is
      reassigned; it moves to the head of the target bucket when it lived
      elsewhere and otherwise keeps its chain position. */
  lemma GetMiss(c: Cache, dev: u32, blockno: u32)
    requires Wf(c) && Lookup(c, dev, blockno).None?
    requires exists q :: Unreferenced(c, q)
    ensures Get(c, dev, blockno).Ok?
    ensures var g := Get(c, dev, blockno).value;
            var key := Hash(dev, blockno);
            var v := SelectVictim(c).value;
                        && IsVictim(c, v)
                        && g.buf == At(c, v)
                        && g.cache.bufs[g.buf] == Buf(false, dev, blockno, 1, c.bufs[g.buf].lastuse)
                        && (forall j :: 0 <= j < |c.bufs| && j != g.buf ==> g.cache.bufs[j] == c.bufs[j])
                        && (v.bucket == key ==> g.cache.buckets == c.buckets)
                        && (v.bucket != key ==>
                              && g.cache.buckets[key] == [g.buf] + c.buckets[key]
                              && g.cache.buckets[v.bucket] == Remove(c.buckets[v.bucket], v.index)
                              && g.buf !in g.cache.buckets[v.bucket]
                              && forall k :: 0 <= k < NBUCKET && k != key && k != v.bucket ==>
                                   g.cache.buckets[k] == c.buckets[k])
  {
    var v := SelectVictim(c).value;
    assert Get(c, dev, blockno).value == Evict(c, v, dev, blockno);
    EvictShape(c, v, dev, blockno);
  }

  /** After a miss the reassigned slot is the only one carrying the block:
      the eviction never duplicates a cached identity. */
  lemma GetMissNoDuplicate(c: Cache, dev: u32, blockno: u32)
    requires Wf(c) && Lookup(c, dev, blockno).None?
    requires exists q :: Unreferenced(c, q)
    ensures Get(c, dev, blockno).Ok?
    ensures var g := Get(c, dev, blockno).value;
            forall j :: 0 <= j < |g.cache.bufs| ==> (Matches(g.cache.bufs[j], dev, blockno) <==> j == g.buf)
  {
    var v := SelectVictim(c).value;
    var g := Get(c, dev, blockno).value;
    assert g == Evict(c, v, dev, blockno);
    LookupComplete(c, dev, blockno);
    EvictShape(c, v, dev, blockno);
  }

  /** What the reassignment of the victim at `v` leaves in the arena and
      in the chains. */
  lemma EvictShape(c: Cache, v: Pos, dev: u32, blockno: u32)
    requires Wf(c) && InCache(c, v)
    ensures var g := Evict(c, v, dev, blockno);
            var key := Hash(dev, blockno);
            && g.buf == At(c, v)
            && g.cache.bufs[g.buf] == Buf(false, dev, blockno, 1, c.bufs[g.buf].lastuse)
            && (forall j :: 0 <= j < |c.bufs| && j != g.buf ==> g.cache.bufs[j] == c.bufs[j])
            && (v.bucket == key ==> g.cache.buckets == c.buckets)
            && (v.bucket != key ==>
                  && g.cache.buckets[key] == [g.buf] + c.buckets[key]
                  && g.cache.buckets[v.bucket] == Remove(c.buckets[v.bucket], v.index)
                  && g.buf !in g.cache.buckets[v.bucket]
                  && forall k :: 0 <= k < NBUCKET && k != key && k != v.bucket ==>
                       g.cache.buckets[k] == c.buckets[k])
  {
    var key := Hash(dev, blockno);
    RelinkedShape(c.buckets, v, At(c, v), key);
    if v.bucket != key {
      MovedSlotLeavesBucket(c, v, dev, blockno);
    }
  }

  lemma RelinkedShape(buckets: seq<seq<nat>>, v: Pos, b: nat, key: nat)
    requires v.bucket < |buckets| && v.index < |buckets[v.bucket]| && key < |buckets|
    ensures var r := Relinked(buckets, v, b, key);
            && (v.bucket == key ==> r == buckets)
            && (v.bucket != key ==>
                  && r[key] == [b] + buckets[key]
                  && r[v.bucket] == Remove(buckets[v.bucket], v.index)
                  && forall k :: 0 <= k < |buckets| && k != key && k != v.bucket ==> r[k] == buckets[k])
  {
  }

  /** A slot moved to another bucket is no longer linked in its old one. */
  lemma MovedSlotLeavesBucket(c: Cache, v: Pos, dev: u32, blockno: u32)
    requires Wf(c) && InCache(c, v) && v.bucket != Hash(dev, blockno)
    ensures var g := Evict(c, v, dev, blockno);
            g.buf !in g.cache.buckets[v.bucket]
  {
    var g := Evict(c, v, dev, blockno);
    var key := Hash(dev, blockno);
    var c' := g.cache;
    RelinkedShape(c.buckets, v, g.buf, key);
    assert c'.buckets[key][0] == g.buf;
    forall p | 0 <= p < |c'.buckets[v.bucket]|
      ensures c'.buckets[v.bucket][p] != g.buf
    {
      SlotAtOnePosition(c', Pos(v.bucket, p), Pos(key, 0));
    }
  }

  /** When every slot is referenced, a block that is not cached cannot be
      given a slot: `bget` panics. */
  lemma GetPanicsWhenAllReferenced(c: Cache, dev: u32, blockno: u32)
    requires Wf(c) && Lookup(c, dev, blockno).None?
    requires forall i :: 0 <= i < |c.bufs| ==> c.bufs[i].refcnt > 0
    ensures Get(c, dev, blockno) == Err("bget: no buffers")
  {
  }

  /** No two slots hold valid content for the same block. */
  lemma ValidSlotsDistinct(c: Cache, i: nat, j: nat)
    requires Shaped(c) && ValidFound(c)
    requires i < |c.bufs| && j < |c.bufs| && c.bufs[i].valid && c.bufs[j].valid
    requires Matches(c.bufs[j], c.bufs[i].dev, c.bufs[i].blockno)
    ensures i == j
  {
  }

  /** Identity-preserving steps keep every valid slot findable. */
  lemma SameIdsKeepValidFound(c: Cache, c': Cache)
    requires Shaped(c) && ValidFound(c) && c'.buckets == c.buckets && SameIds(c, c')
    requires forall i :: 0 <= i < |c.bufs| && c'.bufs[i].valid ==> c.bufs[i].valid
    ensures Shaped(c') && ValidFound(c')
  {
    forall i | 0 <= i < |c'.bufs| && c'.bufs[i].valid
      ensures Lookup(c', c'.bufs[i].dev, c'.bufs[i].blockno) == Some(i)
    {
      SameIdsSameLookup(c, c', c.bufs[i].dev, c.bufs[i].blockno);
    }
  }

  /** An eviction for (dev, blockno) leaves every other cached identity
      found at the same slot. */
  lemma EvictKeepsLookup(c: Cache, v: Pos, dev: u32, blockno: u32, d: u32, n: u32)
    requires Wf(c) && InCache(c, v) && Lookup(c, dev, blockno).None?
    requires Lookup(c, d, n).Some? && Lookup(c, d, n).value != At(c, v)
    ensures Lookup(Evict(c, v, dev, blockno).cache, d, n) == Lookup(c, d, n)
  {
    var b := At(c, v);
    var key := Hash(dev, blockno);
    var h := Hash(d, n);
    var bufs' := Reassigned(c.bufs, b, dev, blockno);
    var bs := Relinked(c.buckets, v, b, key);
    assert Evict(c, v, dev, blockno).cache == Cache(bufs', bs);
    var pw := FindInChain(c.bufs, c.buckets[h], d, n).value;
    var w := c.buckets[h][pw];
    assert w == Lookup(c, d, n).value;
    var pw' := RelinkedPosition(c, v, key, h, pw);
    assert bufs'[w] == c.bufs[w];
    forall q | 0 <= q < pw'
      ensures !Matches(bufs'[bs[h][q]], d, n)
    {
      RelinkedBeforeMatch(c, v, dev, blockno, d, n, pw, q);
    }
    FirstMatch(bufs', bs[h], d, n, pw');
  }

  /** Where an entry other than the moved slot sits after the relink, and
      that every entry before it there was before it already, or is the
      moved slot. */
  lemma RelinkedPosition(c: Cache, v: Pos, key: nat, h: nat, pw: nat) returns (pw': nat)
    requires Shaped(c) && InCache(c, v) && key < NBUCKET && h < NBUCKET
    requires pw < |c.buckets[h]| && c.buckets[h][pw] != At(c, v)
    ensures var bs := Relinked(c.buckets, v, At(c, v), key);
            && pw' < |bs[h]| && bs[h][pw'] == c.buckets[h][pw]
            && forall q :: 0 <= q < pw' ==>
                 (v.bucket != key && h == key && q == 0) || OldPos(v, key, h, q).index < pw
  {
    pw' := if v.bucket != key && h == key then pw + 1
           else if v.bucket != key && h == v.bucket && pw > v.index then pw - 1
           else pw;
    RelinkedAt(c, v, key, h, pw');
    assert OldPos(v, key, h, pw') == Pos(h, pw);
  }

  /** A relinked entry that comes from before the first match of (d, n),
      or is the moved slot, does not match (d, n) after the eviction. */
  lemma RelinkedBeforeMatch(c: Cache, v: Pos, dev: u32, blockno: u32, d: u32, n: u32, pw: nat, q: nat)
    requires Wf(c) && InCache(c, v) && (d, n) != (dev, blockno)
    requires var h := Hash(d, n);
             pw <= |c.buckets[h]| && forall r :: 0 <= r < pw ==> !Matches(c.bufs[c.buckets[h][r]], d, n)
    requires var key := Hash(dev, blockno);
             var h := Hash(d, n);
             var bs := Relinked(c.buckets, v, At(c, v), key);
             q < |bs[h]| && ((v.bucket != key && h == key && q == 0) || OldPos(v, key, h, q).index < pw)
    ensures var key := Hash(dev, blockno);
            var h := Hash(d, n);
            var bs := Relinked(c.buckets, v, At(c, v), key);
            !Matches(Evict(c, v, dev, blockno).cache.bufs[bs[h][q]], d, n)
  {
    var key := Hash(dev, blockno);
    var h := Hash(d, n);
    var b := At(c, v);
    var bufs := Reassigned(c.bufs, b, dev, blockno);
    assert Evict(c, v, dev, blockno).cache.bufs == bufs;
    RelinkedAt(c, v, key, h, q);
    if !(v.bucket != key && h == key && q == 0) {
      var o := OldPos(v, key, h, q);
      assert !Matches(c.bufs[c.buckets[h][o.index]], d, n);
    }
  }

  /** `bget` keeps every valid slot findable. */
  lemma GetKeepsValidFound(c: Cache, dev: u32, blockno: u32)
    requires Wf(c) && ValidFound(c) && Get(c, dev, blockno).Ok?
    ensures ValidFound(Get(c, dev, blockno).value.cache)
  {
    var g := Get(c, dev, blockno).value;
    match Lookup(c, dev, blockno)
    case Some(b) =>
      SameIdsKeepValidFound(c, g.cache);
    case None =>
      var v := SelectVictim(c).value;
      forall i | 0 <= i < |g.cache.bufs| && g.cache.bufs[i].valid
        ensures Lookup(g.cache, g.cache.bufs[i].dev, g.cache.bufs[i].blockno) == Some(i)
      {
        assert i != g.buf;
        EvictKeepsLookup(c, v, dev, blockno, c.bufs[i].dev, c.bufs[i].blockno);
      }
  }

  /** `bread` keeps every valid slot findable, the slot it returns included. */
  lemma ReadKeepsValidFound(c: Cache, dev: u32, blockno: u32)
    requires Wf(c) && ValidFound(c) && Read(c, dev, blockno).Ok?
    ensures ValidFound(Read(c, dev, blockno).value.cache)
  {
    var g := Get(c, dev, blockno).value;
    GetKeepsValidFound(c, dev, blockno);
    var r := Read(c, dev, blockno).value;
    ReadFromGet(c, dev, blockno);
    ValidateKeepsValidFound(g.cache, r.cache, g.buf, dev, blockno);
  }

  /** `bread` changes nothing of what `bget` returned except, possibly,
      the valid flag of the returned slot. */
  lemma ReadFromGet(c: Cache, dev: u32, blockno: u32)
    requires Wf(c) && Read(c, dev, blockno).Ok?
    ensures Get(c, dev, blockno).Ok?
    ensures var g := Get(c, dev, blockno).value;
            var r := Read(c, dev, blockno).value;
            && r.buf == g.buf && r.cache.buckets == g.cache.buckets && SameIds(g.cache, r.cache)
            && forall i :: 0 <= i < |r.cache.bufs| && i != g.buf ==> r.cache.bufs[i].valid == g.cache.bufs[i].valid
  {
    var g := Get(c, dev, blockno).value;
    var r := Read(c, dev, blockno).value;
    if !g.cache.bufs[g.buf].valid {
      assert r.cache == g.cache.(bufs := g.cache.bufs[g.buf := g.cache.bufs[g.buf].(valid := true)]);
    }
  }

  /** Marking the slot found for a block valid, and changing nothing else
      about identities or validity, keeps every valid slot findable. */
  lemma ValidateKeepsValidFound(g: Cache, r: Cache, b: nat, dev: u32, blockno: u32)
    requires Wf(g) && ValidFound(g) && Lookup(g, dev, blockno) == Some(b)
    requires r.buckets == g.buckets && SameIds(g, r)
    requires forall i :: 0 <= i < |r.bufs| && i != b ==> r.bufs[i].valid == g.bufs[i].valid
    ensures Shaped(r) && ValidFound(r)
  {
    SameIdsSameLookup(g, r, dev, blockno);
    forall i | 0 <= i < |r.bufs| && r.bufs[i].valid
      ensures Lookup(r, r.bufs[i].dev, r.bufs[i].blockno) == Some(i)
    {
      SameIdsSameLookup(g, r, g.bufs[i].dev, g.bufs[i].blockno);
    }
  }

  /** `brelse`, `bpin` and `bunpin` keep every valid slot findable. */
  lemma RefcountStepsKeepValidFound(c: Cache, b: nat, ticks: u32)
    requires Wf(c) && ValidFound(c) && b < |c.bufs|
    ensures ValidFound(Pin(c, b))
    ensures c.bufs[b].refcnt > 0 ==> ValidFound(Unpin(c, b))
    ensures c.bufs[b].refcnt > 0 && Release(c, b, true, ticks).Ok? ==> ValidFound(Release(c, b, true, ticks).value)
  {
    SameIdsKeepValidFound(c, Pin(c, b));
    if c.bufs[b].refcnt > 0 {
      SameIdsKeepValidFound(c, Unpin(c, b));
      SameIdsKeepValidFound(c, Release(c, b, true, ticks).value);
    }
  }

  /** A valid cached block is read without the device. */
  lemma ReadValidHit(c: Cache, dev: u32, blockno: u32, b: nat)
    requires Wf(c) && Lookup(c, dev, blockno) == Some(b) && c.bufs[b].valid
    ensures Read(c, dev, blockno).Ok?
    ensures Read(c, dev, blockno).value.buf == b && !Read(c, dev, blockno).value.diskRead
  {
  }

  /** A block missing from the cache is always read from the device. */
  lemma ReadMissReadsDisk(c: Cache, dev: u32, blockno: u32)
    requires Wf(c) && Lookup(c, dev, blockno).None? && Read(c, dev, blockno).Ok?
    ensures Read(c, dev, blockno).value.diskRead
  {
  }

  /** Re-reading a block right after releasing it returns the same slot
      and does not touch the device. */
  lemma RereadAfterRelease(c: Cache, dev: u32, blockno: u32, ticks: u32)
    requires Wf(c) && Read(c, dev, blockno).Ok?
    ensures var r := Read(c, dev, blockno).value;
            var c2 := Release(r.cache, r.buf, true, ticks);
            && c2.Ok?
            && Read(c2.value, dev, blockno).Ok?
            && Read(c2.value, dev, blockno).value.buf == r.buf
            && !Read(c2.value, dev, blockno).value.diskRead
  {
    var r := Read(c, dev, blockno).value;
    var c2 := Release(r.cache, r.buf, true, ticks).value;
    SameIdsSameLookup(r.cache, c2, dev, blockno);
    ReadValidHit(c2, dev, blockno, r.buf);
  }

  /** `bunpin` undoes `bpin`. */
  lemma PinUnpinRoundTrip(c: Cache, b: nat)
    requires Wf(c) && b < |c.bufs|
    ensures Unpin(Pin(c, b), b) == c
  {
  }
}
