/**
 * The random walk as pure functions: where one move takes an agent, what one
 * tick (every agent activated once, in the scheduler's order, all drawing from
 * the one shared generator) does to the list of agent positions, and what a
 * whole run does. `Model.Population` is proved to compute exactly these.
 *
 * Positions are indexed like the population's agent list; an activation
 * order is a sequence of such indexes; `src` is the generator's sequence of
 * raw outputs and `cur` the number already consumed.
 */
module Walk {
  import opened RoadGraph
  import opened Randomness
  import opened Scheduler

  /**
   * Where `Bacteria.move` leaves an agent standing on `v` when the
   * generator's next raw output is `d`: a successor of `v` if there is one,
   * and `v` itself otherwise.
   */
  function MoveTarget(g: Graph, v: NodeId, d: nat): (w: NodeId)
    requires v in g.succ
    ensures |g.succ[v]| > 0 ==> IsEdge(g, v, w)
    ensures |g.succ[v]| == 0 ==> w == v
    ensures Closed(g) ==> w in g.succ
  {
    var neighbors := g.succ[v];
    if |neighbors| > 0 then neighbors[RandBelow(d, |neighbors|)] else v
  }

  /** Every successor of `v` is a possible outcome of a move from `v`. */
  lemma EverySuccessorReachable(g: Graph, v: NodeId, w: NodeId)
    requires IsEdge(g, v, w)
    ensures exists d: nat :: MoveTarget(g, v, d) == w
  {
    var k :| 0 <= k < |g.succ[v]| && g.succ[v][k] == w;
    assert MoveTarget(g, v, k) == w;
  }

  /** How many outputs a move from `v` takes from the generator: none when `v` has no successor. */
  function Draws(g: Graph, v: NodeId): nat
    requires v in g.succ
  {
    if |g.succ[v]| > 0 then 1 else 0
  }

  /** Every agent stands on a node of the graph. */
  predicate OnGraph(g: Graph, pos: seq<NodeId>) {
    forall i :: 0 <= i < |pos| ==> pos[i] in g.succ
  }

  /**
   * One pass of the scheduler: the agents named by `order` move one after
   * the other, each drawing from the shared generator when it has somewhere
   * to go. Yields the new positions and the new cursor of the generator.
   */
  function Activate(g: Graph, pos: seq<NodeId>, order: seq<nat>, src: nat -> nat, cur: nat): (r: (seq<NodeId>, nat))
    requires Closed(g) && OnGraph(g, pos) && Indexes(order, |pos|)
    ensures |r.0| == |pos| && OnGraph(g, r.0)
    ensures cur <= r.1 <= cur + |order|
    decreases |order|
  {
    if order == [] then (pos, cur)
    else
      var a := order[0];
      Activate(g, pos[a := MoveTarget(g, pos[a], src(cur))], order[1..], src, cur + Draws(g, pos[a]))
  }

  /** A pass over `order[j..]` starts with the move of agent `order[j]`. */
  lemma ActivateFrom(g: Graph, pos: seq<NodeId>, order: seq<nat>, j: nat, src: nat -> nat, cur: nat)
    requires Closed(g) && OnGraph(g, pos) && Indexes(order, |pos|) && j < |order|
    ensures Indexes(order[j..], |pos|) && Indexes(order[j + 1..], |pos|)
    ensures Activate(g, pos, order[j..], src, cur) ==
      Activate(g, pos[order[j] := MoveTarget(g, pos[order[j]], src(cur))], order[j + 1..], src, cur + Draws(g, pos[order[j]]))
  {
    assert order[j..][0] == order[j] && order[j..][1..] == order[j + 1..];
  }

  /**
   * The raw output each agent is handed during a pass over `order` from
   * positions `pos`: the one at the cursor when its turn comes. Agents that
   * are not in `order` get 0, which they never use.
   */
  function Handed(g: Graph, pos: seq<NodeId>, order: seq<nat>, src: nat -> nat, cur: nat): (h: seq<nat>)
    requires OnGraph(g, pos) && Indexes(order, |pos|)
    ensures |h| == |pos|
    decreases |order|
  {
    if order == [] then seq(|pos|, _ => 0)
    else Handed(g, pos, order[1..], src, cur + Draws(g, pos[order[0]]))[order[0] := src(cur)]
  }

  /** How many outputs a pass over `order` takes from the generator when every agent is still where it started. */
  function Movers(g: Graph, pos: seq<NodeId>, order: seq<nat>): nat
    requires OnGraph(g, pos) && Indexes(order, |pos|)
    decreases |order|
  {
    if order == [] then 0 else Draws(g, pos[order[0]]) + Movers(g, pos, order[1..])
  }

  /** Every agent moves once, independently, agent `i` using raw output `picks[i]`. */
  function MoveEach(g: Graph, pos: seq<NodeId>, picks: seq<nat>): (r: seq<NodeId>)
    requires OnGraph(g, pos) && |picks| == |pos|
    ensures |r| == |pos|
  {
    seq(|pos|, i requires 0 <= i < |pos| => MoveTarget(g, pos[i], picks[i]))
  }

  /** `Handed` and `Movers` look only at the positions of the agents in `order`. */
  lemma {:induction false} HandedReadsOnlyActivated(g: Graph, pos: seq<NodeId>, pos': seq<NodeId>, order: seq<nat>, src: nat -> nat, cur: nat)
    requires OnGraph(g, pos) && OnGraph(g, pos') && |pos| == |pos'| && Indexes(order, |pos|)
    requires forall j :: 0 <= j < |order| ==> pos[order[j]] == pos'[order[j]]
    ensures Handed(g, pos, order, src, cur) == Handed(g, pos', order, src, cur)
    ensures Movers(g, pos, order) == Movers(g, pos', order)
    decreases |order|
  {
    if order != [] {
      assert pos[order[0]] == pos'[order[0]];
      HandedReadsOnlyActivated(g, pos, pos', order[1..], src, cur + Draws(g, pos[order[0]]));
    }
  }

  /**
   * Agents never read each other's state: in a pass over distinct agents,
   * each listed agent ends where a single move from its starting node with
   * the output it was handed takes it, every other agent stays, and the
   * generator advances once per listed agent that has a successor.
   */
  lemma {:induction false} ActivateMovesEachListed(g: Graph, pos: seq<NodeId>, order: seq<nat>, src: nat -> nat, cur: nat)
    requires Closed(g) && OnGraph(g, pos) && Indexes(order, |pos|) && Distinct(order)
    ensures Activate(g, pos, order, src, cur).1 == cur + Movers(g, pos, order)
    ensures forall i :: 0 <= i < |pos| ==>
      Activate(g, pos, order, src, cur).0[i] ==
        if i in order then MoveTarget(g, pos[i], Handed(g, pos, order, src, cur)[i]) else pos[i]
    decreases |order|
  {
    if order != [] {
      var a := order[0];
      var rest := order[1..];
      var pos' := pos[a := MoveTarget(g, pos[a], src(cur))];
      var cur' := cur + Draws(g, pos[a]);
      assert Distinct(rest) by {
        forall j, k | 0 <= j < k < |rest| ensures rest[j] != rest[k] {
          assert rest[j] == order[j + 1] && rest[k] == order[k + 1];
        }
      }
      assert a !in rest by {
        forall j | 0 <= j < |rest| ensures rest[j] != a {
          assert rest[j] == order[j + 1];
        }
      }
      ActivateMovesEachListed(g, pos', rest, src, cur');
      HandedReadsOnlyActivated(g, pos, pos', rest, src, cur');
      assert Activate(g, pos, order, src, cur) == Activate(g, pos', rest, src, cur');
      forall i | 0 <= i < |pos|
        ensures Activate(g, pos, order, src, cur).0[i] ==
          if i in order then MoveTarget(g, pos[i], Handed(g, pos, order, src, cur)[i]) else pos[i]
      {
        assert i in order <==> i == a || i in rest;
      }
    }
  }

  /**
   * A tick over a permutation of the agents: the positions afterwards are
   * those of every agent moving once on its own, with the output it was
   * handed; the order of activation matters only through which output each
   * agent receives.
   */
  lemma TickIsIndependentMoves(g: Graph, pos: seq<NodeId>, order: seq<nat>, src: nat -> nat, cur: nat)
    requires Closed(g) && OnGraph(g, pos) && IsPermutation(order, |pos|)
    ensures Activate(g, pos, order, src, cur).0 == MoveEach(g, pos, Handed(g, pos, order, src, cur))
    ensures Activate(g, pos, order, src, cur).1 == cur + Movers(g, pos, order)
  {
    ActivateMovesEachListed(g, pos, order, src, cur);
    EveryAgentActivatedOnce(order, |pos|);
  }

  /**
   * For fixed per-agent choices the positions after a tick do not depend on
   * the activation order.
   */
  lemma OrderIndependence(g: Graph, pos: seq<NodeId>, order1: seq<nat>, order2: seq<nat>,
                          src1: nat -> nat, cur1: nat, src2: nat -> nat, cur2: nat)
    requires Closed(g) && OnGraph(g, pos)
    requires IsPermutation(order1, |pos|) && IsPermutation(order2, |pos|)
    requires Handed(g, pos, order1, src1, cur1) == Handed(g, pos, order2, src2, cur2)
    ensures Activate(g, pos, order1, src1, cur1).0 == Activate(g, pos, order2, src2, cur2).0
  {
    TickIsIndependentMoves(g, pos, order1, src1, cur1);
    TickIsIndependentMoves(g, pos, order2, src2, cur2);
  }

  /**
   * In a tick every agent with a successor follows an edge, and every agent
   * without one stays where it is.
   */
  lemma TickFollowsEdges(g: Graph, pos: seq<NodeId>, order: seq<nat>, src: nat -> nat, cur: nat)
    requires Closed(g) && OnGraph(g, pos) && IsPermutation(order, |pos|)
    ensures forall i :: 0 <= i < |pos| && |g.succ[pos[i]]| > 0 ==>
      IsEdge(g, pos[i], Activate(g, pos, order, src, cur).0[i])
    ensures forall i :: 0 <= i < |pos| && |g.succ[pos[i]]| == 0 ==>
      Activate(g, pos, order, src, cur).0[i] == pos[i]
  {
    TickIsIndependentMoves(g, pos, order, src, cur);
  }

  /** An agent on a node without successors does not move during a pass, whatever the order. */
  lemma {:induction false} StuckAgentStaysInTick(g: Graph, pos: seq<NodeId>, order: seq<nat>, src: nat -> nat, cur: nat, i: nat)
    requires Closed(g) && OnGraph(g, pos) && Indexes(order, |pos|)
    requires i < |pos| && |g.succ[pos[i]]| == 0
    ensures Activate(g, pos, order, src, cur).0[i] == pos[i]
    decreases |order|
  {
    if order != [] {
      var a := order[0];
      var pos' := pos[a := MoveTarget(g, pos[a], src(cur))];
      assert pos'[i] == pos[i];
      StuckAgentStaysInTick(g, pos', order[1..], src, cur + Draws(g, pos[a]), i);
    }
  }

  /** The pass over `order` reads the generator only at the outputs `cur .. cur + |order| - 1`. */
  lemma {:induction false} ActivateReadsOnlyItsDraws(g: Graph, pos: seq<NodeId>, order: seq<nat>, src1: nat -> nat, src2: nat -> nat, cur: nat)
    requires Closed(g) && OnGraph(g, pos) && Indexes(order, |pos|)
    requires forall k :: cur <= k < cur + |order| ==> src1(k) == src2(k)
    ensures Activate(g, pos, order, src1, cur) == Activate(g, pos, order, src2, cur)
    decreases |order|
  {
    if order != [] {
      var a := order[0];
      assert src1(cur) == src2(cur);
      var pos' := pos[a := MoveTarget(g, pos[a], src1(cur))];
      ActivateReadsOnlyItsDraws(g, pos', order[1..], src1, src2, cur + Draws(g, pos[a]));
    }
  }

  /** Every order in `orders` names agents among `n`. */
  predicate AllIndex(orders: seq<seq<nat>>, n: nat) {
    forall t :: 0 <= t < |orders| ==> Indexes(orders[t], n)
  }

  /** `Population.run`: one pass per element of `orders`, in sequence. */
  function RunTicks(g: Graph, pos: seq<NodeId>, orders: seq<seq<nat>>, src: nat -> nat, cur: nat): (r: (seq<NodeId>, nat))
    requires Closed(g) && OnGraph(g, pos) && AllIndex(orders, |pos|)
    ensures |r.0| == |pos| && OnGraph(g, r.0)
    ensures cur <= r.1
    decreases |orders|
  {
    if orders == [] then (pos, cur)
    else
      var s := Activate(g, pos, orders[0], src, cur);
      RunTicks(g, s.0, orders[1..], src, s.1)
  }

  /** A run of `t + 1` ticks is a run of `t` ticks followed by one more tick. */
  lemma {:induction false} RunIsTicksInSequence(g: Graph, pos: seq<NodeId>, orders: seq<seq<nat>>, order: seq<nat>, src: nat -> nat, cur: nat)
    requires Closed(g) && OnGraph(g, pos) && AllIndex(orders, |pos|) && Indexes(order, |pos|)
    ensures AllIndex(orders + [order], |pos|)
    ensures RunTicks(g, pos, orders + [order], src, cur) ==
      Activate(g, RunTicks(g, pos, orders, src, cur).0, order, src, RunTicks(g, pos, orders, src, cur).1)
    decreases |orders|
  {
    assert forall t :: 0 <= t < |orders| ==> (orders + [order])[t] == orders[t];
    assert (orders + [order])[|orders|] == order;
    if orders == [] {
      assert [order][1..] == [];
    } else {
      var s := Activate(g, pos, orders[0], src, cur);
      assert (orders + [order])[0] == orders[0];
      assert (orders + [order])[1..] == orders[1..] + [order];
      RunIsTicksInSequence(g, s.0, orders[1..], order, src, s.1);
    }
  }

  /** An agent on a node without successors stays there for the whole run. */
  lemma {:induction false} StuckAgentStaysInRun(g: Graph, pos: seq<NodeId>, orders: seq<seq<nat>>, src: nat -> nat, cur: nat, i: nat)
    requires Closed(g) && OnGraph(g, pos) && AllIndex(orders, |pos|)
    requires i < |pos| && |g.succ[pos[i]]| == 0
    ensures RunTicks(g, pos, orders, src, cur).0[i] == pos[i]
    decreases |orders|
  {
    if orders != [] {
      var s := Activate(g, pos, orders[0], src, cur);
      StuckAgentStaysInTick(g, pos, orders[0], src, cur, i);
      StuckAgentStaysInRun(g, s.0, orders[1..], src, s.1, i);
    }
  }

  /**
   * Same generator outputs, same run: a run of `|orders|` ticks over `|pos|`
   * agents depends on the generator only through its outputs
   * `cur .. cur + |orders| * |pos| - 1`.
   */
  lemma {:induction false} RunReadsOnlyItsDraws(g: Graph, pos: seq<NodeId>, orders: seq<seq<nat>>, src1: nat -> nat, src2: nat -> nat, cur: nat)
    requires Closed(g) && OnGraph(g, pos)
    requires forall t :: 0 <= t < |orders| ==> |orders[t]| == |pos| && Indexes(orders[t], |pos|)
    requires forall k :: cur <= k < cur + |orders| * |pos| ==> src1(k) == src2(k)
    ensures RunTicks(g, pos, orders, src1, cur) == RunTicks(g, pos, orders, src2, cur)
    decreases |orders|
  {
    if orders != [] {
      assert |orders| * |pos| == |pos| + (|orders| - 1) * |pos|;
      ActivateReadsOnlyItsDraws(g, pos, orders[0], src1, src2, cur);
      var s := Activate(g, pos, orders[0], src1, cur);
      RunReadsOnlyItsDraws(g, s.0, orders[1..], src1, src2, s.1);
    }
  }
}
