/**
 * The random-activation scheduler: each tick it activates the agents in a
 * freshly shuffled order. The shuffle itself is an input here; what matters
 * is that the order is a permutation of the agents' positions in the list.
 */
module Scheduler {
  /** Every entry of `order` names one of `n` agents. */
  predicate Indexes(order: seq<nat>, n: nat) {
    forall j :: 0 <= j < |order| ==> order[j] < n
  }

  /** No agent is named twice. */
  predicate Distinct(order: seq<nat>) {
    forall j, k :: 0 <= j < k < |order| ==> order[j] != order[k]
  }

  /** `order` is an activation order over `n` agents. */
  predicate IsPermutation(order: seq<nat>, n: nat) {
    |order| == n && Indexes(order, n) && Distinct(order)
  }

  function Elements(s: seq<nat>): set<nat> {
    set x | x in s
  }

  /** The agent indexes `0 .. n-1`. */
  function Below(n: nat): set<nat> {
    if n == 0 then {} else Below(n - 1) + {n - 1}
  }

  lemma {:induction false} BelowSize(n: nat)
    ensures |Below(n)| == n
    ensures forall a :: a in Below(n) <==> 0 <= a < n
  {
    if n > 0 {
      BelowSize(n - 1);
      assert Below(n) == Below(n - 1) + {n - 1};
    } else {
      assert Below(n) == {};
    }
  }

  lemma {:induction false} DistinctSize(s: seq<nat>)
    requires Distinct(s)
    ensures |Elements(s)| == |s|
  {
    if s != [] {
      assert Distinct(s[1..]) by {
        forall j, k | 0 <= j < k < |s[1..]| ensures s[1..][j] != s[1..][k] {
          assert s[1..][j] == s[j + 1] && s[1..][k] == s[k + 1];
        }
      }
      DistinctSize(s[1..]);
      assert Elements(s) == Elements(s[1..]) + {s[0]};
      assert s[0] !in Elements(s[1..]) by {
        forall k | 0 <= k < |s[1..]| ensures s[1..][k] != s[0] {
          assert s[1..][k] == s[k + 1];
        }
      }
    }
  }

  lemma SubsetSize(a: set<nat>, b: set<nat>)
    requires a <= b
    ensures |a| <= |b|
    ensures |a| == |b| ==> a == b
  {
    assert b == a + (b - a);
    assert |b| == |a| + |b - a|;
  }

  /** A permutation activates every agent, and (being distinct) each exactly once. */
  lemma EveryAgentActivatedOnce(order: seq<nat>, n: nat)
    requires IsPermutation(order, n)
    ensures forall a :: 0 <= a < n ==> a in order
  {
    DistinctSize(order);
    BelowSize(n);
    assert Elements(order) <= Below(n);
    SubsetSize(Elements(order), Below(n));
    forall a | 0 <= a < n ensures a in order {
      assert a in Below(n);
    }
  }
}
