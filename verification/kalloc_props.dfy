/** Properties of the page allocator across calls: the invariant that
    each count is its list's length, conservation of free pages by
    `kalloc` and `kfree`, when `kalloc` can return null, which CPU it
    steals from, and what `kinit` leaves behind. */
module PageAllocatorProps {
  import opened Types
  import opened PageAllocator

  lemma {:induction false} TotalFreeAllEmpty(ls: seq<seq<nat>>)
    requires forall c :: 0 <= c < |ls| ==> ls[c] == []
    ensures TotalFree(ls) == 0
  {
    if |ls| > 0 {
      assert forall c :: 0 <= c < |ls| - 1 ==> ls[1..][c] == ls[c + 1];
      TotalFreeAllEmpty(ls[1..]);
    }
  }

  /** The pages of a run are exactly the page-spaced addresses from `p`
      whose whole page fits below `stop`. */
  lemma {:induction false} PageRunMembers(p: nat, stop: nat, x: nat)
    ensures x in PageRun(p, stop) <==> p <= x && (x - p) % PGSIZE == 0 && x + PGSIZE <= stop
    decreases stop - p
  {
    if p + PGSIZE <= stop {
      assert PageRun(p, stop) == [p] + PageRun(p + PGSIZE, stop);
      PageRunMembers(p + PGSIZE, stop, x);
      if x >= p + PGSIZE {
        assert (x - p) % PGSIZE == (x - (p + PGSIZE)) % PGSIZE;
      }
    }
  }

  /** Local path: with pages on the executing CPU's list, `kalloc` takes
      its head and touches no other CPU. */
  lemma KAllocLocal(m: Kmem, cpu: nat)
    requires Shaped(m) && cpu < NCPU && |m.freelist[cpu]| > 0
    ensures var a := KAlloc(m, cpu);
            && a.page == Some(m.freelist[cpu][0])
            && a.mem.freelist[cpu] == m.freelist[cpu][1..]
            && a.mem.freePageCount[cpu] == m.freePageCount[cpu] - 1
            && forall c :: 0 <= c < NCPU && c != cpu ==>
                 a.mem.freelist[c] == m.freelist[c] && a.mem.freePageCount[c] == m.freePageCount[c]
  {
  }

  /** Steal path: with the executing CPU's list empty and pages elsewhere,
      `kalloc` takes the head of a list no other CPU's list is longer
      than, and of those the lowest-numbered one. */
  lemma KAllocSteal(m: Kmem, cpu: nat, other: nat)
    requires Valid(m) && cpu < NCPU && m.freelist[cpu] == []
    requires other < NCPU && |m.freelist[other]| > 0
    ensures var a := KAlloc(m, cpu);
            exists src ::
              && 0 <= src < NCPU && src != cpu && |m.freelist[src]| > 0
              && a.page == Some(m.freelist[src][0])
              && a.mem.freelist == m.freelist[src := m.freelist[src][1..]]
              && (forall j :: 0 <= j < NCPU ==> |m.freelist[j]| <= |m.freelist[src]|)
              && (forall j :: 0 <= j < src ==> |m.freelist[j]| < |m.freelist[src]|)
  {
    var src := StealTarget(m.freePageCount, cpu);
    assert Candidate(other, cpu);
    assert m.freePageCount[src] >= m.freePageCount[other] > 0;
    forall j | 0 <= j < NCPU
      ensures |m.freelist[j]| <= |m.freelist[src]|
    {
      if j != cpu {
        assert Candidate(j, cpu);
      }
    }
    forall j | 0 <= j < src
      ensures |m.freelist[j]| < |m.freelist[src]|
    {
      if j != cpu {
        assert Candidate(j, cpu);
      }
    }
  }

  /** `kalloc` returns null exactly when every CPU's list is empty: the
      steal scan never settles on an empty list while another has pages. */
  lemma KAllocNullIffEmpty(m: Kmem, cpu: nat)
    requires Valid(m) && cpu < NCPU
    ensures KAlloc(m, cpu).page.None? <==> TotalFree(m.freelist) == 0
  {
    if TotalFree(m.freelist) == 0 {
      TotalFreeZero(m.freelist);
      assert m.freelist[cpu] == [];
      assert m.freelist[StealTarget(m.freePageCount, cpu)] == [];
    } else if m.freelist[cpu] == [] {
      if forall c :: 0 <= c < NCPU ==> m.freelist[c] == [] {
        TotalFreeAllEmpty(m.freelist);
      }
      var other :| 0 <= other < NCPU && m.freelist[other] != [];
      KAllocSteal(m, cpu, other);
    }
  }

  /** `kalloc` keeps the invariant, hands out a page that passed the
      address check, and removes exactly one page from the pool. */
  lemma KAllocKeepsValid(m: Kmem, cpu: nat)
    requires Valid(m) && cpu < NCPU
    ensures var a := KAlloc(m, cpu);
            && Valid(a.mem)
            && (a.page.None? ==> TotalFree(a.mem.freelist) == TotalFree(m.freelist))
            && (a.page.Some? ==> PageOk(m, a.page.value) && TotalFree(a.mem.freelist) + 1 == TotalFree(m.freelist))
  {
    var a := KAlloc(m, cpu);
    if a.page.Some? {
      var src :| && 0 <= src < NCPU && |m.freelist[src]| > 0
                 && a.page.value == m.freelist[src][0]
                 && a.mem.freelist == m.freelist[src := m.freelist[src][1..]]
                 && a.mem.freePageCount == m.freePageCount[src := m.freePageCount[src] - 1];
      TotalFreeUpdate(m.freelist, src, m.freelist[src][1..]);
      forall c, i | 0 <= c < NCPU && 0 <= i < |a.mem.freelist[c]|
        ensures PageOk(a.mem, a.mem.freelist[c][i])
      {
        if c == src {
          assert a.mem.freelist[c][i] == m.freelist[c][i + 1];
        }
      }
    }
  }

  /** `kfree` of a page that passes the check keeps the invariant and adds
      exactly one page to the pool. */
  lemma KFreeKeepsValid(m: Kmem, cpu: nat, pa: nat)
    requires Valid(m) && cpu < NCPU && PageOk(m, pa)
    ensures KFree(m, cpu, pa).Ok?
    ensures var m' := KFree(m, cpu, pa).value;
            Valid(m') && TotalFree(m'.freelist) == TotalFree(m.freelist) + 1
  {
    var m' := KFree(m, cpu, pa).value;
    assert m'.freelist == m.freelist[cpu := [pa] + m.freelist[cpu]];
    TotalFreeUpdate(m.freelist, cpu, [pa] + m.freelist[cpu]);
    forall c, i | 0 <= c < NCPU && 0 <= i < |m'.freelist[c]|
      ensures PageOk(m', m'.freelist[c][i])
    {
      if c == cpu && i > 0 {
        assert m'.freelist[c][i] == m.freelist[c][i - 1];
      }
    }
  }

  /** A page `kalloc` hands out can be given back with `kfree` on any CPU,
      which restores the number of free pages. */
  lemma AllocFreeRoundTrip(m: Kmem, cpu: nat, cpu': nat)
    requires Valid(m) && cpu < NCPU && cpu' < NCPU && KAlloc(m, cpu).page.Some?
    ensures var a := KAlloc(m, cpu);
            && KFree(a.mem, cpu', a.page.value).Ok?
            && Valid(KFree(a.mem, cpu', a.page.value).value)
            && TotalFree(KFree(a.mem, cpu', a.page.value).value.freelist) == TotalFree(m.freelist)
  {
    var a := KAlloc(m, cpu);
    KAllocKeepsValid(m, cpu);
    KFreeKeepsValid(a.mem, cpu', a.page.value);
  }

  /** A page-aligned address at or above `a` is at or above the first page
      boundary above `a`. */
  lemma AlignedAboveRoundUp(a: nat, pa: nat)
    requires pa % PGSIZE == 0 && a <= pa
    ensures PgRoundUp(a) <= pa && (pa - PgRoundUp(a)) % PGSIZE == 0
  {
    var q := PgRoundUp(a);
    assert pa == pa / PGSIZE * PGSIZE;
    assert q == q / PGSIZE * PGSIZE;
    assert pa - q == (pa / PGSIZE - q / PGSIZE) * PGSIZE;
  }

  /** The run `kinit` frees is exactly the pages passing the address
      check. */
  lemma InitRunIsPageOk(kernelEnd: nat, pa: nat)
    ensures pa in PageRun(PgRoundUp(kernelEnd), PHYSTOP) <==> PageOk(Empty(kernelEnd), pa)
  {
    PageRunMembers(PgRoundUp(kernelEnd), PHYSTOP, pa);
    if PageOk(Empty(kernelEnd), pa) {
      AlignedAboveRoundUp(kernelEnd, pa);
    }
  }

  /** Reversal keeps the members of a sequence. */
  lemma ReverseMembers(s: seq<nat>, x: nat)
    ensures x in Reverse(s) <==> x in s
  {
    if x in s {
      var i :| 0 <= i < |s| && s[i] == x;
      assert Reverse(s)[|s| - 1 - i] == x;
    }
  }

  /** The shape of the state `kinit` leaves: the run, reversed, on the
      executing CPU, and nothing elsewhere. */
  lemma KInitLists(kernelEnd: nat, cpu: nat)
    requires cpu < NCPU
    ensures KInit(kernelEnd, cpu).Ok?
    ensures var m := KInit(kernelEnd, cpu).value;
            var run := PageRun(PgRoundUp(kernelEnd), PHYSTOP);
            && Shaped(m) && m.kernelEnd == kernelEnd
            && m.freelist == Empty(kernelEnd).freelist[cpu := Reverse(run)]
            && m.freePageCount == Empty(kernelEnd).freePageCount[cpu := |run|]
  {
    var e := Empty(kernelEnd);
    var run := PageRun(PgRoundUp(kernelEnd), PHYSTOP);
    InitRunAllPageOk(kernelEnd);
    var m := KInit(kernelEnd, cpu).value;
    var fl := e.freelist[cpu := Reverse(run)];
    var fc := e.freePageCount[cpu := |run|];
    forall c | 0 <= c < NCPU
      ensures m.freelist[c] == fl[c] && m.freePageCount[c] == fc[c]
    {
    }
    assert m.freelist == fl;
    assert m.freePageCount == fc;
  }

  /** Every page of the run `kinit` frees passes the address check. */
  lemma InitRunAllPageOk(kernelEnd: nat)
    ensures var run := PageRun(PgRoundUp(kernelEnd), PHYSTOP);
            forall pa :: pa in run ==> PageOk(Empty(kernelEnd), pa)
  {
    var run := PageRun(PgRoundUp(kernelEnd), PHYSTOP);
    forall pa | pa in run
      ensures PageOk(Empty(kernelEnd), pa)
    {
      InitRunIsPageOk(kernelEnd, pa);
    }
  }

  /** `kinit` always succeeds; the executing CPU's list holds every page
      that passes the `kfree` address check, each once, in descending
      address order, filled with `FREED_FILL`; every other CPU starts
      empty. */
  lemma KInitFreesAllPages(kernelEnd: nat, cpu: nat)
    requires cpu < NCPU
    ensures KInit(kernelEnd, cpu).Ok?
    ensures var m := KInit(kernelEnd, cpu).value;
            var run := PageRun(PgRoundUp(kernelEnd), PHYSTOP);
            && Valid(m) && m.kernelEnd == kernelEnd
            && m.freelist[cpu] == Reverse(run)
            && (forall pa :: pa in m.freelist[cpu] <==> PageOk(m, pa))
            && (forall i, j :: 0 <= i < j < |m.freelist[cpu]| ==> m.freelist[cpu][i] > m.freelist[cpu][j])
            && (forall c :: 0 <= c < NCPU && c != cpu ==> m.freelist[c] == [])
            && TotalFree(m.freelist) == |run|
            && (forall pa :: pa in m.fill <==> PageOk(m, pa))
            && (forall pa :: pa in m.fill ==> m.fill[pa] == FREED_FILL)
  {
    var e := Empty(kernelEnd);
    var run := PageRun(PgRoundUp(kernelEnd), PHYSTOP);
    KInitLists(kernelEnd, cpu);
    KInitListsPageOk(kernelEnd, cpu);
    KInitFills(kernelEnd, cpu);
    var m := KInit(kernelEnd, cpu).value;
    forall c, i | 0 <= c < NCPU && 0 <= i < |m.freelist[c]|
      ensures PageOk(m, m.freelist[c][i])
    {
      assert m.freelist[c][i] in m.freelist[c];
    }
    TotalFreeAllEmpty(e.freelist);
    TotalFreeUpdate(e.freelist, cpu, Reverse(run));
  }

  /** After `kinit` the executing CPU's list holds exactly the pages that
      pass the address check. */
  lemma KInitListsPageOk(kernelEnd: nat, cpu: nat)
    requires cpu < NCPU
    ensures KInit(kernelEnd, cpu).Ok?
    ensures var m := KInit(kernelEnd, cpu).value;
            forall pa :: pa in m.freelist[cpu] <==> PageOk(m, pa)
  {
    var run := PageRun(PgRoundUp(kernelEnd), PHYSTOP);
    KInitLists(kernelEnd, cpu);
    var m := KInit(kernelEnd, cpu).value;
    forall pa
      ensures pa in m.freelist[cpu] <==> PageOk(m, pa)
    {
      ReverseMembers(run, pa);
      InitRunIsPageOk(kernelEnd, pa);
    }
  }

  /** After `kinit` exactly the pages that pass the address check carry
      the fill byte of `kfree`. */
  lemma KInitFills(kernelEnd: nat, cpu: nat)
    requires cpu < NCPU
    ensures KInit(kernelEnd, cpu).Ok?
    ensures var m := KInit(kernelEnd, cpu).value;
            && (forall pa :: pa in m.fill <==> PageOk(m, pa))
            && (forall pa :: pa in m.fill ==> m.fill[pa] == FREED_FILL)
  {
    var e := Empty(kernelEnd);
    var q := PgRoundUp(kernelEnd);
    KInitLists(kernelEnd, cpu);
    FreeRangeFills(e, cpu, q, PHYSTOP);
    var m := KInit(kernelEnd, cpu).value;
    forall pa
      ensures pa in m.fill <==> PageOk(m, pa)
    {
      InitRunIsPageOk(kernelEnd, pa);
    }
  }
}
