/** Facts about a table of chains: a sequence of sequences, each inner
    sequence standing for one singly-linked list, head first. */
module Chains {

  /** All chains laid end to end, in table order. */
  function Flatten(bs: seq<seq<nat>>): seq<nat>
  {
    if |bs| == 0 then [] else bs[0] + Flatten(bs[1..])
  }

  /** The chain `s` with its element at position `p` unlinked. */
  function Remove(s: seq<nat>, p: nat): (r: seq<nat>)
    requires p < |s|
    ensures |r| == |s| - 1
    ensures forall i :: 0 <= i < p ==> r[i] == s[i]
    ensures forall i :: p <= i < |r| ==> r[i] == s[i + 1]
    ensures multiset(r) + multiset{s[p]} == multiset(s)
  {
    assert s == s[..p] + [s[p]] + s[p + 1..];
    s[..p] + s[p + 1..]
  }

  lemma {:induction false} FlattenConcat(a: seq<seq<nat>>, b: seq<seq<nat>>)
    ensures Flatten(a + b) == Flatten(a) + Flatten(b)
  {
    if |a| == 0 {
      assert a + b == b;
    } else {
      assert (a + b)[1..] == a[1..] + b;
      FlattenConcat(a[1..], b);
    }
  }

  /** The flattened table around one of its chains. */
  lemma FlattenSplit(bs: seq<seq<nat>>, k: nat)
    requires k < |bs|
    ensures Flatten(bs) == Flatten(bs[..k]) + bs[k] + Flatten(bs[k + 1..])
  {
    var rest := bs[k..];
    assert bs == bs[..k] + rest;
    FlattenConcat(bs[..k], rest);
    assert rest[0] == bs[k] && rest[1..] == bs[k + 1..];
    assert Flatten(rest) == bs[k] + Flatten(bs[k + 1..]);
  }

  /** Replacing one chain changes the table's multiset by exactly that chain. */
  lemma FlattenUpdate(bs: seq<seq<nat>>, k: nat, s: seq<nat>)
    requires k < |bs|
    ensures forall x :: multiset(Flatten(bs[k := s]))[x] + multiset(bs[k])[x] == multiset(Flatten(bs))[x] + multiset(s)[x]
  {
    FlattenSplit(bs, k);
    FlattenSplit(bs[k := s], k);
    assert bs[k := s][..k] == bs[..k];
    assert bs[k := s][k + 1..] == bs[k + 1..];
  }

  /** An element stored in some chain occurs in the flattened table. */
  lemma InFlatten(bs: seq<seq<nat>>, k: nat, p: nat)
    requires k < |bs| && p < |bs[k]|
    ensures bs[k][p] in Flatten(bs)
  {
    FlattenSplit(bs, k);
    assert bs[k][p] in bs[k];
  }

  /** Every element of the flattened table is stored at some position. */
  lemma {:induction false} FromFlatten(bs: seq<seq<nat>>, x: nat)
    requires x in Flatten(bs)
    ensures exists k, p :: 0 <= k < |bs| && 0 <= p < |bs[k]| && bs[k][p] == x
  {
    if x in bs[0] {
      var p :| 0 <= p < |bs[0]| && bs[0][p] == x;
      assert bs[0][p] == x;
    } else {
      FromFlatten(bs[1..], x);
      var k, p :| 0 <= k < |bs[1..]| && 0 <= p < |bs[1..][k]| && bs[1..][k][p] == x;
      assert bs[k + 1][p] == x;
    }
  }

  lemma CountTwice(s: seq<nat>, p1: nat, p2: nat)
    requires p1 < p2 < |s| && s[p1] == s[p2]
    ensures multiset(s)[s[p1]] >= 2
  {
    assert s == s[..p2] + s[p2..];
    assert s[p1] in s[..p2];
    assert s[p2..][0] == s[p2];
  }

  /** Two distinct positions holding the same element make it occur at
      least twice in the flattened table. */
  lemma TwoPositions(bs: seq<seq<nat>>, k1: nat, p1: nat, k2: nat, p2: nat)
    requires k1 < |bs| && p1 < |bs[k1]| && k2 < |bs| && p2 < |bs[k2]|
    requires (k1, p1) != (k2, p2) && bs[k1][p1] == bs[k2][p2]
    ensures multiset(Flatten(bs))[bs[k1][p1]] >= 2
  {
    if k1 == k2 {
      FlattenSplit(bs, k1);
      var a, c := Flatten(bs[..k1]), Flatten(bs[k1 + 1..]);
      if p1 < p2 {
        CountTwice(bs[k1], p1, p2);
      } else {
        CountTwice(bs[k1], p2, p1);
      }
      assert multiset(a + bs[k1] + c) == multiset(a) + multiset(bs[k1]) + multiset(c);
    } else if k1 < k2 {
      InTwoChains(bs, k1, p1, k2, p2);
    } else {
      InTwoChains(bs, k2, p2, k1, p1);
    }
  }

  /** An element in an earlier chain and in a later one occurs twice. */
  lemma InTwoChains(bs: seq<seq<nat>>, k1: nat, p1: nat, k2: nat, p2: nat)
    requires k1 < k2 < |bs| && p1 < |bs[k1]| && p2 < |bs[k2]| && bs[k1][p1] == bs[k2][p2]
    ensures multiset(Flatten(bs))[bs[k1][p1]] >= 2
  {
    var x := bs[k1][p1];
    FlattenSplit(bs, k2);
    var a, c := Flatten(bs[..k2]), Flatten(bs[k2 + 1..]);
    InFlatten(bs[..k2], k1, p1);
    assert x in multiset(a);
    assert x in multiset(bs[k2]);
    assert multiset(a + bs[k2] + c) == multiset(a) + multiset(bs[k2]) + multiset(c);
  }
}
