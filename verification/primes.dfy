/** The prime sieve of user/primes.c. Each pipeline stage prints the first
    number it reads and passes on, in order, the rest that it does not
    divide; the pipes and processes between stages are replaced by
    sequences, so the pipeline is one recursive function. */
module Primes {
  import opened Types

  /** The numbers `main` writes into the first pipe: 2 to 35. */
  const FIRST: int := 2
  const LAST: int := 35

  /** `lo`, `lo + 1`, ..., `hi`. */
  function Range(lo: int, hi: int): (r: seq<int>)
    ensures |r| == if lo <= hi then hi - lo + 1 else 0
    ensures forall i :: 0 <= i < |r| ==> r[i] == lo + i
    decreases hi - lo
  {
    if lo > hi then [] else [lo] + Range(lo + 1, hi)
  }

  predicate Increasing(s: seq<int>)
  {
    forall i, j :: 0 <= i < j < |s| ==> s[i] < s[j]
  }

  predicate AllPositive(s: seq<int>)
  {
    forall i :: 0 <= i < |s| ==> s[i] > 0
  }

  /** The loop of one stage: the numbers of `s`, in order, that `d` does
      not divide. (On positive operands C's `%` and Dafny's agree.) */
  function NonMultiples(s: seq<int>, d: int): (r: seq<int>)
    requires d > 0
    ensures |r| <= |s|
    ensures forall x :: x in r <==> x in s && x % d != 0
    ensures Increasing(s) ==> Increasing(r)
    ensures AllPositive(s) ==> AllPositive(r)
  {
    if |s| == 0 then []
    else
      var rest := NonMultiples(s[1..], d);
      assert s == [s[0]] + s[1..];
      if s[0] % d != 0 then
        ConsIncreasing(s, rest);
        [s[0]] + rest
      else rest
  }

  /** A stage forwards every non-multiple as often as it read it, and no
      multiple at all. */
  lemma {:induction false} NonMultiplesCount(s: seq<int>, d: int, x: int)
    requires d > 0
    ensures multiset(NonMultiples(s, d))[x] == if x % d != 0 then multiset(s)[x] else 0
  {
    if |s| > 0 {
      var rest := NonMultiples(s[1..], d);
      NonMultiplesCount(s[1..], d, x);
      assert s == [s[0]] + s[1..];
      assert multiset(s) == multiset{s[0]} + multiset(s[1..]);
      if s[0] % d != 0 {
        assert NonMultiples(s, d) == [s[0]] + rest;
        assert multiset([s[0]] + rest) == multiset{s[0]} + multiset(rest);
      } else {
        assert NonMultiples(s, d) == rest;
      }
    }
  }

  /** The stage reads its pipe in order: filtering a stream read in two
      parts is filtering each part, one after the other. With the
      multiplicities above this fixes the result to the subsequence of the
      non-multiples, in the order they were read. */
  lemma {:induction false} NonMultiplesConcat(a: seq<int>, b: seq<int>, d: int)
    requires d > 0
    ensures NonMultiples(a + b, d) == NonMultiples(a, d) + NonMultiples(b, d)
  {
    if |a| > 0 {
      assert (a + b)[0] == a[0] && (a + b)[1..] == a[1..] + b;
      NonMultiplesConcat(a[1..], b, d);
    } else {
      assert a + b == b;
    }
  }

  /** One number read: forwarded exactly when the head does not divide it. */
  lemma NonMultiplesOne(x: int, d: int)
    requires d > 0
    ensures NonMultiples([x], d) == if x % d != 0 then [x] else []
  {
    assert [x][1..] == [];
  }

  /** Putting the head of an increasing sequence in front of values drawn
      from its tail keeps them increasing. */
  lemma ConsIncreasing(s: seq<int>, t: seq<int>)
    requires |s| > 0 && forall x :: x in t ==> x in s[1..]
    ensures Increasing(s) && Increasing(t) ==> Increasing([s[0]] + t)
  {
    if Increasing(s) && Increasing(t) {
      forall x | x in t
        ensures s[0] < x
      {
        var i :| 0 <= i < |s[1..]| && s[1..][i] == x;
        assert s[i + 1] == x;
      }
      forall i, j | 0 <= i < j < |[s[0]] + t|
        ensures ([s[0]] + t)[i] < ([s[0]] + t)[j]
      {
        assert ([s[0]] + t)[j] == t[j - 1];
        assert t[j - 1] in t;
      }
    }
  }

  /** `pipe_filter` applied to the numbers in its pipe: what the stage and
      all stages after it print. An empty pipe ends the pipeline. */
  function Sieve(s: seq<int>): (printed: seq<int>)
    requires AllPositive(s)
    ensures |printed| <= |s|
    ensures forall x :: x in printed ==> x in s
    ensures AllPositive(printed)
    decreases |s|
  {
    if |s| == 0 then []
    else
      var next := NonMultiples(s[1..], s[0]);
      assert forall x :: x in next ==> x in s;
      [s[0]] + Sieve(next)
  }

  /** What `primes` prints. */
  function PrimesOutput(): seq<int>
  {
    Sieve(Range(FIRST, LAST))
  }

  /** `main`: any argument is an error. */
  function Run(argc: nat): (r: Result<seq<int>>)
    ensures r.Err? <==> argc != 1
    ensures r.Ok? ==> r.value == PrimesOutput()
  {
    if argc != 1 then Err("Error") else Ok(PrimesOutput())
  }

  /** The reference definition. */
  predicate IsPrime(n: int)
  {
    n >= 2 && forall d :: 2 <= d < n ==> n % d != 0
  }

  /** `x` has no prime divisor below `m`. */
  predicate Rough(x: int, m: int)
  {
    forall q :: 2 <= q < m && IsPrime(q) ==> x % q != 0
  }

  /** What reaches a stage: the numbers from `m` to `n`, in increasing
      order, that no prime below `m` divides. */
  ghost predicate Stage(s: seq<int>, m: int, n: int)
  {
    && 2 <= m
    && Increasing(s)
    && AllPositive(s)
    && forall x :: x in s <==> m <= x <= n && Rough(x, m)
  }

  lemma MulMod(e: int, k: nat)
    requires e > 0
    ensures (e * k) % e == 0
  {
    var q := (e * k) / e;
    var r := (e * k) % e;
    assert e * k == e * q + r && 0 <= r < e;
    var t := k - q;
    assert e * t == r;
  }

  lemma DividesTrans(x: int, d: int, e: int)
    requires x > 0 && d > 0 && e > 0 && x % d == 0 && d % e == 0
    ensures x % e == 0
  {
    var a := x / d;
    var b := d / e;
    assert x == d * a;
    assert d == e * b;
    assert a >= 0 && b >= 0;
    assert x == e * (b * a);
    MulMod(e, b * a);
  }

  /** Every number from 2 on has a prime divisor no larger than itself. */
  lemma {:induction false} PrimeDivisor(x: int) returns (q: int)
    requires x >= 2
    ensures 2 <= q <= x && IsPrime(q) && x % q == 0
    decreases x
  {
    if IsPrime(x) {
      q := x;
    } else {
      var d :| 2 <= d < x && x % d == 0;
      q := PrimeDivisor(d);
      DividesTrans(x, d, q);
    }
  }

  /** A prime at or above `m` has no prime divisor below `m`. */
  lemma PrimeIsRough(q: int, m: int)
    ensures IsPrime(q) && m <= q ==> Rough(q, m)
  {
  }

  /** The first number reaching a stage is prime, and no prime lies
      between the stage's lower bound and it. */
  lemma HeadIsPrime(s: seq<int>, m: int, n: int)
    requires Stage(s, m, n) && |s| > 0
    ensures IsPrime(s[0])
    ensures forall q :: m <= q < s[0] ==> !IsPrime(q)
  {
    var p := s[0];
    assert p in s;
    forall q | m <= q < p
      ensures !IsPrime(q)
    {
      PrimeIsRough(q, m);
    }
    if !IsPrime(p) {
      var d :| 2 <= d < p && p % d == 0;
      var q := PrimeDivisor(d);
      DividesTrans(p, d, q);
    }
  }

  /** The tail of an increasing sequence holds the members above the head. */
  lemma TailMembers(s: seq<int>)
    requires Increasing(s) && |s| > 0
    ensures forall x :: x in s[1..] <==> x in s && x > s[0]
  {
    forall x | x in s && x > s[0]
      ensures x in s[1..]
    {
      var i :| 0 <= i < |s| && s[i] == x;
      assert s[1..][i - 1] == x;
    }
  }

  /** Sieving by the prime `p`, when no prime lies in [m, p), moves the
      roughness bound from `m` to `p + 1`. */
  lemma RoughStep(x: int, m: int, p: int)
    requires IsPrime(p) && m <= p
    requires forall q :: m <= q < p ==> !IsPrime(q)
    ensures Rough(x, p + 1) <==> Rough(x, m) && x % p != 0
  {
  }

  /** One stage turns the stream for `m` into the stream for one past the
      printed head. */
  lemma NextStage(s: seq<int>, m: int, n: int)
    requires Stage(s, m, n) && |s| > 0
    ensures Stage(NonMultiples(s[1..], s[0]), s[0] + 1, n)
  {
    var p := s[0];
    assert p in s;
    HeadIsPrime(s, m, n);
    TailMembers(s);
    var next := NonMultiples(s[1..], p);
    assert Increasing(s[1..]) && AllPositive(s[1..]);
    forall x
      ensures x in next <==> p + 1 <= x <= n && Rough(x, p + 1)
    {
      RoughStep(x, m, p);
    }
  }

  /** The pipeline fed a stage's stream prints exactly the primes from `m`
      to `n`, in increasing order. */
  lemma {:induction false} SieveCorrect(s: seq<int>, m: int, n: int)
    requires Stage(s, m, n)
    ensures forall x :: x in Sieve(s) <==> m <= x <= n && IsPrime(x)
    ensures Increasing(Sieve(s))
    decreases |s|
  {
    if |s| == 0 {
      forall x | m <= x <= n
        ensures !IsPrime(x)
      {
        PrimeIsRough(x, m);
      }
    } else {
      var p := s[0];
      var next := NonMultiples(s[1..], p);
      HeadIsPrime(s, m, n);
      NextStage(s, m, n);
      SieveCorrect(next, p + 1, n);
      assert p in s;
      assert Sieve(s) == [p] + Sieve(next);
      ConsIncreasing(s, Sieve(next));
      forall x
        ensures x in Sieve(s) <==> m <= x <= n && IsPrime(x)
      {
      }
    }
  }

  /** `primes` prints exactly the primes up to 35, in increasing order. */
  lemma PrimesUpTo35()
    ensures forall x :: x in PrimesOutput() <==> 2 <= x <= 35 && IsPrime(x)
    ensures Increasing(PrimesOutput())
  {
    var s := Range(FIRST, LAST);
    assert forall x :: x in s <==> FIRST <= x <= LAST by {
      forall x | FIRST <= x <= LAST
        ensures x in s
      {
        assert s[x - FIRST] == x;
      }
    }
    assert Stage(s, FIRST, LAST);
    SieveCorrect(s, FIRST, LAST);
  }

  /** The numbers reaching stage `k` (stage 0 reads what `main` wrote). */
  function StageInput(s: seq<int>, k: nat): (r: seq<int>)
    requires AllPositive(s)
    ensures AllPositive(r)
    decreases k
  {
    if k == 0 || |s| == 0 then s else StageInput(NonMultiples(s[1..], s[0]), k - 1)
  }

  lemma {:induction false} StageInputFromInput(s: seq<int>, k: nat)
    requires AllPositive(s)
    ensures forall x :: x in StageInput(s, k) ==> x in s
    decreases k
  {
    if k > 0 && |s| > 0 {
      StageInputFromInput(NonMultiples(s[1..], s[0]), k - 1);
    }
  }

  /** No number reaching a stage is divisible by a number an earlier stage
      printed. */
  lemma {:induction false} EarlierHeadsDoNotDivide(s: seq<int>, k: nat, i: nat, x: int)
    requires AllPositive(s) && i < k && i < |Sieve(s)| && x in StageInput(s, k)
    ensures x % Sieve(s)[i] != 0
    decreases k
  {
    var next := NonMultiples(s[1..], s[0]);
    assert Sieve(s) == [s[0]] + Sieve(next);
    if i == 0 {
      StageInputFromInput(next, k - 1);
    } else {
      EarlierHeadsDoNotDivide(next, k - 1, i - 1, x);
    }
  }
}
