/** The per-CPU physical page allocator of kernel/kalloc.c.

    Each CPU owns a free list (head first) and a count of the pages on it.
    Pages are integer addresses; the bytes `memset` writes are recorded as
    one fill byte per page. The CPU executing a call is a parameter, and
    every call is one atomic step (the per-CPU spin-locks and interrupt
    masking are left out). */
module PageAllocator {
  import opened Types

  const NCPU: nat := 8
  const PGSIZE: nat := 4096
  const KERNBASE: nat := 0x8000_0000
  /** Top of usable physical memory: 128 MiB above `KERNBASE`. */
  const PHYSTOP: nat := KERNBASE + 128 * 1024 * 1024
  /** Byte written over a page when it is freed (catches dangling uses). */
  const FREED_FILL: nat := 1
  /** Byte written over a page when it is handed out (catches reads of
      uninitialised memory). */
  const ALLOC_FILL: nat := 5

  /** The allocator state: `kernelEnd` is the first address after the
      kernel image (the linker symbol `end`), `freelist[c]` and
      `freePageCount[c]` belong to CPU `c`, and `fill` records the byte
      each page was last filled with. */
  datatype Kmem = Kmem(kernelEnd: nat, freelist: seq<seq<nat>>, freePageCount: seq<int>, fill: map<nat, nat>)

  /** The result of `kalloc`: the new state and the page, `None` for null. */
  datatype Alloc = Alloc(mem: Kmem, page: Option<nat>)

  predicate Shaped(m: Kmem)
  {
    |m.freelist| == NCPU && |m.freePageCount| == NCPU
  }

  /** The address check of `kfree`: page-aligned and inside [end, PHYSTOP). */
  predicate PageOk(m: Kmem, pa: nat)
  {
    pa % PGSIZE == 0 && m.kernelEnd <= pa < PHYSTOP
  }

  /** The allocator invariant: each count is the length of its list and
      every listed page passed the address check. */
  ghost predicate Valid(m: Kmem)
  {
    && Shaped(m)
    && (forall c :: 0 <= c < NCPU ==> m.freePageCount[c] == |m.freelist[c]|)
    && (forall c, i :: 0 <= c < NCPU && 0 <= i < |m.freelist[c]| ==> PageOk(m, m.freelist[c][i]))
  }

  /** Number of pages on all free lists together. */
  function TotalFree(ls: seq<seq<nat>>): nat
  {
    if |ls| == 0 then 0 else |ls[0]| + TotalFree(ls[1..])
  }

  lemma {:induction false} TotalFreeUpdate(ls: seq<seq<nat>>, c: nat, s: seq<nat>)
    requires c < |ls|
    ensures TotalFree(ls[c := s]) + |ls[c]| == TotalFree(ls) + |s|
  {
    if c > 0 {
      assert ls[c := s][1..] == ls[1..][c - 1 := s];
      TotalFreeUpdate(ls[1..], c - 1, s);
    }
  }

  lemma {:induction false} TotalFreeZero(ls: seq<seq<nat>>)
    requires TotalFree(ls) == 0
    ensures forall c :: 0 <= c < |ls| ==> ls[c] == []
  {
    if |ls| > 0 {
      TotalFreeZero(ls[1..]);
      assert forall c :: 1 <= c < |ls| ==> ls[c] == ls[1..][c - 1];
    }
  }

  /** `PGROUNDUP`: the first page boundary at or above `a`. */
  function PgRoundUp(a: nat): (r: nat)
    ensures r % PGSIZE == 0 && a <= r < a + PGSIZE
  {
    (a + PGSIZE - 1) / PGSIZE * PGSIZE
  }

  /** `kfree`: panics unless the address passes the check; otherwise the
      page is filled with `FREED_FILL` and pushed on the head of the
      executing CPU's list, whose count goes up by one. */
  function KFree(m: Kmem, cpu: nat, pa: nat): (r: Result<Kmem>)
    requires Shaped(m) && cpu < NCPU
    ensures r.Ok? <==> PageOk(m, pa)
    ensures r.Ok? ==> && Shaped(r.value) && r.value.kernelEnd == m.kernelEnd
                      && r.value.freelist[cpu] == [pa] + m.freelist[cpu]
                      && r.value.freePageCount[cpu] == m.freePageCount[cpu] + 1
                      && (forall c :: 0 <= c < NCPU && c != cpu ==>
                            r.value.freelist[c] == m.freelist[c] && r.value.freePageCount[c] == m.freePageCount[c])
                      && r.value.fill == m.fill[pa := FREED_FILL]
  {
    if pa % PGSIZE != 0 || pa < m.kernelEnd || pa >= PHYSTOP then Err("kfree")
    else
      Ok(m.(freelist := m.freelist[cpu := [pa] + m.freelist[cpu]],
            freePageCount := m.freePageCount[cpu := m.freePageCount[cpu] + 1],
            fill := m.fill[pa := FREED_FILL]))
  }

  /** `a` is `m` with the head page of CPU `src`'s list taken off, its
      count lowered by one, and the page filled with `ALLOC_FILL`. */
  predicate PoppedFrom(m: Kmem, a: Alloc, src: nat)
  {
    && src < NCPU && src < |m.freelist| && src < |m.freePageCount| && |m.freelist[src]| > 0
    && a.page == Some(m.freelist[src][0])
    && a.mem.kernelEnd == m.kernelEnd
    && a.mem.freelist == m.freelist[src := m.freelist[src][1..]]
    && a.mem.freePageCount == m.freePageCount[src := m.freePageCount[src] - 1]
    && a.mem.fill == m.fill[m.freelist[src][0] := ALLOC_FILL]
  }

  /** Take the head page of CPU `c`'s list and fill it with `ALLOC_FILL`. */
  function Pop(m: Kmem, c: nat): (a: Alloc)
    requires Shaped(m) && c < NCPU && |m.freelist[c]| > 0
    ensures Shaped(a.mem)
    ensures PoppedFrom(m, a, c)
  {
    var r := m.freelist[c][0];
    Alloc(m.(freelist := m.freelist[c := m.freelist[c][1..]],
             freePageCount := m.freePageCount[c := m.freePageCount[c] - 1],
             fill := m.fill[r := ALLOC_FILL]),
          Some(r))
  }

  /** The CPUs the steal scan looks at: CPU 0, where it starts, and every
      other CPU except the executing one. */
  predicate Candidate(j: nat, cpu: nat)
  {
    j == 0 || j != cpu
  }

  /** The steal scan from CPU `i` on, holding `sel` as the best so far. */
  function StealScan(counts: seq<int>, cpu: nat, i: nat, sel: nat): (r: nat)
    requires |counts| == NCPU && 1 <= i <= NCPU && sel < i && Candidate(sel, cpu)
    requires forall j :: 0 <= j < i && Candidate(j, cpu) ==> counts[j] <= counts[sel]
    requires forall j :: 0 <= j < sel && Candidate(j, cpu) ==> counts[j] < counts[sel]
    ensures r < NCPU && Candidate(r, cpu)
    ensures forall j :: 0 <= j < NCPU && Candidate(j, cpu) ==> counts[j] <= counts[r]
    ensures forall j :: 0 <= j < r && Candidate(j, cpu) ==> counts[j] < counts[r]
    decreases NCPU - i
  {
    if i == NCPU then sel
    else if i == cpu then StealScan(counts, cpu, i + 1, sel)
    else if counts[i] > counts[sel] then StealScan(counts, cpu, i + 1, i)
    else StealScan(counts, cpu, i + 1, sel)
  }

  /** The CPU `kalloc` steals from: the largest count among the
      candidates, the lowest index on a tie. */
  function StealTarget(counts: seq<int>, cpu: nat): (r: nat)
    requires |counts| == NCPU
    ensures r < NCPU && Candidate(r, cpu)
    ensures forall j :: 0 <= j < NCPU && Candidate(j, cpu) ==> counts[j] <= counts[r]
    ensures forall j :: 0 <= j < r && Candidate(j, cpu) ==> counts[j] < counts[r]
  {
    StealScan(counts, cpu, 1, 0)
  }

  /** `kalloc`: pop the executing CPU's list; when it is empty, pop the
      list of the CPU the steal scan picks; null when that is empty too. */
  function KAlloc(m: Kmem, cpu: nat): (a: Alloc)
    requires Shaped(m) && cpu < NCPU
    ensures Shaped(a.mem) && a.mem.kernelEnd == m.kernelEnd
    ensures a.page.None? ==> a.mem == m
    ensures a.page.Some? ==> exists src :: PoppedFrom(m, a, src)
  {
    if |m.freelist[cpu]| > 0 then Pop(m, cpu)
    else
      var sel := StealTarget(m.freePageCount, cpu);
      if |m.freelist[sel]| > 0 then Pop(m, sel) else Alloc(m, None)
  }

  /** The page addresses `freerange` frees from `p` on: one per page while
      the whole page fits below `stop`. */
  function PageRun(p: nat, stop: nat): (r: seq<nat>)
    ensures |r| == if p + PGSIZE <= stop then (stop - p) / PGSIZE else 0
    ensures forall i :: 0 <= i < |r| ==> r[i] == p + i * PGSIZE && r[i] + PGSIZE <= stop
    decreases stop - p
  {
    if p + PGSIZE <= stop then [p] + PageRun(p + PGSIZE, stop) else []
  }

  function Reverse(s: seq<nat>): (r: seq<nat>)
    ensures |r| == |s|
    ensures forall i :: 0 <= i < |s| ==> r[i] == s[|s| - 1 - i]
  {
    if |s| == 0 then [] else Reverse(s[1..]) + [s[0]]
  }

  /** The `freerange` loop from page `p` on: every page is freed on the
      executing CPU, so that list ends with the pages in reverse order. */
  function FreeRangeFrom(m: Kmem, cpu: nat, p: nat, stop: nat): (r: Result<Kmem>)
    requires Shaped(m) && cpu < NCPU
    ensures r.Ok? <==> forall i :: 0 <= i < |PageRun(p, stop)| ==> PageOk(m, PageRun(p, stop)[i])
    ensures r.Ok? ==> && Shaped(r.value) && r.value.kernelEnd == m.kernelEnd
                      && r.value.freelist[cpu] == Reverse(PageRun(p, stop)) + m.freelist[cpu]
                      && r.value.freePageCount[cpu] == m.freePageCount[cpu] + |PageRun(p, stop)|
                      && (forall c :: 0 <= c < NCPU && c != cpu ==>
                            r.value.freelist[c] == m.freelist[c] && r.value.freePageCount[c] == m.freePageCount[c])
    decreases stop - p
  {
    if p + PGSIZE <= stop then
      var run := PageRun(p + PGSIZE, stop);
      assert PageRun(p, stop) == [p] + run;
      match KFree(m, cpu, p)
      case Err(e) => Err(e)
      case Ok(m1) =>
        assert Reverse([p] + run) == Reverse(run) + [p];
        FreeRangeFrom(m1, cpu, p + PGSIZE, stop)
    else Ok(m)
  }

  /** Every page `freerange` frees ends up filled with `FREED_FILL`; the
      fill of every other page is untouched. */
  lemma {:induction false} FreeRangeFills(m: Kmem, cpu: nat, p: nat, stop: nat)
    requires Shaped(m) && cpu < NCPU && FreeRangeFrom(m, cpu, p, stop).Ok?
    ensures var f := FreeRangeFrom(m, cpu, p, stop).value.fill;
            && (forall x :: x in PageRun(p, stop) ==> x in f && f[x] == FREED_FILL)
            && (forall x :: x !in PageRun(p, stop) ==> (x in f <==> x in m.fill) && (x in f ==> f[x] == m.fill[x]))
    decreases stop - p
  {
    if p + PGSIZE <= stop {
      var m1 := KFree(m, cpu, p).value;
      FreeRangeFills(m1, cpu, p + PGSIZE, stop);
      assert PageRun(p, stop) == [p] + PageRun(p + PGSIZE, stop);
    }
  }

  /** `freerange(pa_start, pa_end)`: `kfree` every whole page from the
      first page boundary at or above the start; it panics as soon as one
      page fails the address check. */
  function FreeRange(m: Kmem, cpu: nat, start: nat, stop: nat): (r: Result<Kmem>)
    requires Shaped(m) && cpu < NCPU
    ensures var run := PageRun(PgRoundUp(start), stop);
            && (r.Ok? <==> forall pa :: pa in run ==> PageOk(m, pa))
            && (r.Ok? ==> && Shaped(r.value)
                          && r.value.freelist[cpu] == Reverse(run) + m.freelist[cpu]
                          && r.value.freePageCount[cpu] == m.freePageCount[cpu] + |run|
                          && forall c :: 0 <= c < NCPU && c != cpu ==>
                               r.value.freelist[c] == m.freelist[c] && r.value.freePageCount[c] == m.freePageCount[c])
  {
    FreeRangeFrom(m, cpu, PgRoundUp(start), stop)
  }

  /** The state before `kinit`: every list empty, every count zero. */
  function Empty(kernelEnd: nat): (m: Kmem)
    ensures Shaped(m)
  {
    Kmem(kernelEnd, seq(NCPU, _ => []), seq(NCPU, _ => 0), map[])
  }

  /** `kinit`: free every whole page between the kernel's end and `PHYSTOP`
      on the CPU running it. */
  function KInit(kernelEnd: nat, cpu: nat): (r: Result<Kmem>)
    requires cpu < NCPU
    ensures r.Ok? ==> && Shaped(r.value) && r.value.kernelEnd == kernelEnd
                      && r.value.freelist[cpu] == Reverse(PageRun(PgRoundUp(kernelEnd), PHYSTOP))
                      && r.value.freePageCount[cpu] == |PageRun(PgRoundUp(kernelEnd), PHYSTOP)|
                      && forall c :: 0 <= c < NCPU && c != cpu ==> r.value.freelist[c] == [] && r.value.freePageCount[c] == 0
  {
    FreeRange(Empty(kernelEnd), cpu, kernelEnd, PHYSTOP)
  }
}

