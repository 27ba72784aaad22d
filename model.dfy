/**
 * The simulation itself: bacteria that walk the road graph, and the
 * population that creates them and advances them tick by tick. Every
 * operation is proved to compute what the functions of `Walk` describe.
 */
module Model {
  import opened RoadGraph
  import opened Randomness
  import opened Scheduler
  import opened Walk

  /** One bacterium: a fixed id and the node it currently stands on. */
  class Bacteria {
    const uniqueId: nat
    var node: NodeId

    constructor (uniqueId: nat, startNode: NodeId)
      ensures this.uniqueId == uniqueId && node == startNode
    {
      this.uniqueId := uniqueId;
      node := startNode;
    }

    /** The nodes this bacterium can move to: the successors of its node. */
    function GetNeighbors(g: Graph): (neighbors: seq<NodeId>)
      reads this
      requires node in g.succ
      ensures forall w :: w in neighbors <==> IsEdge(g, node, w)
      ensures Closed(g) ==> forall w :: w in neighbors ==> w in g.succ
    {
      g.succ[node]
    }

    /** Jump to a successor chosen by the shared generator, or stay put when there is none. */
    method Move(g: Graph, rng: RandomSource)
      requires node in g.succ
      modifies this, rng
      ensures node == MoveTarget(g, old(node), rng.source(old(rng.cursor)))
      ensures rng.cursor == old(rng.cursor) + Draws(g, old(node))
    {
      var neighbors := GetNeighbors(g);
      if |neighbors| > 0 {
        node := rng.Choice(neighbors);
      }
    }

    /** The unit of work the scheduler activates: one move. */
    method Step(g: Graph, rng: RandomSource)
      requires node in g.succ
      modifies this, rng
      ensures node == MoveTarget(g, old(node), rng.source(old(rng.cursor)))
      ensures rng.cursor == old(rng.cursor) + Draws(g, old(node))
    {
      Move(g, rng);
    }
  }

  /** The simulation: a read-only road graph, the shared generator and the scheduled bacteria, in creation order. */
  class Population {
    const numSteps: int
    const numAgents: int
    const graph: Graph
    const random: RandomSource
    var agents: seq<Bacteria>

    /** Distinct bacteria, each standing on a node of the graph. */
    ghost predicate Valid()
      reads this, agents
    {
      && RoadGraph.Valid(graph) && Closed(graph)
      && (forall i, j :: 0 <= i < |agents| && 0 <= j < |agents| && i != j ==> agents[i] != agents[j])
      && (forall i :: 0 <= i < |agents| ==> agents[i].node in graph.succ)
    }

    /** The node of every bacterium, in creation order. */
    ghost function Positions(): (p: seq<NodeId>)
      reads this, agents
      ensures |p| == |agents|
    {
      seq(|agents|, i reads this, agents requires 0 <= i < |agents| => agents[i].node)
    }

    /** The number of iterations of `range(num_agents)`. */
    function AgentCount(): nat {
      if numAgents < 0 then 0 else numAgents
    }

    /** The number of iterations of `range(num_steps)`. */
    function StepCount(): nat {
      if numSteps < 0 then 0 else numSteps
    }

    /** `stream` stands for the seed: it fixes every output of the generator. */
    constructor (numSteps: int, numAgents: int, graph: Graph, stream: nat -> nat)
      requires RoadGraph.Valid(graph) && Closed(graph)
      ensures Valid() && fresh(random)
      ensures this.numSteps == numSteps && this.numAgents == numAgents && this.graph == graph
      ensures random.source == stream && random.cursor == 0
      ensures agents == []
    {
      this.numSteps := numSteps;
      this.numAgents := numAgents;
      this.graph := graph;
      random := new RandomSource(stream);
      agents := [];
    }

    /**
     * Creates `num_agents` bacteria with ids `0, 1, ...`, each on a node
     * chosen from the graph's node list, and appends them. Returns false
     * when the choice fails on an empty node list (an IndexError in the
     * source); nothing has been created or drawn then.
     */
    method InitAgents() returns (ok: bool)
      requires Valid()
      modifies this, random
      ensures Valid()
      ensures ok <==> AgentCount() == 0 || |graph.nodes| > 0
      ensures !ok ==> agents == old(agents) && random.cursor == old(random.cursor)
      ensures ok ==> |agents| == |old(agents)| + AgentCount() && agents[..|old(agents)|] == old(agents)
      ensures ok ==> random.cursor == old(random.cursor) + AgentCount()
      ensures ok ==> forall i :: |old(agents)| <= i < |agents| ==>
        fresh(agents[i]) &&
        agents[i].uniqueId == i - |old(agents)| &&
        agents[i].node == graph.nodes[RandBelow(random.source(old(random.cursor) + i - |old(agents)|), |graph.nodes|)]
    {
      var nodes := graph.nodes;
      var i := 0;
      while i < numAgents
        invariant 0 <= i <= AgentCount()
        invariant i > 0 ==> |nodes| > 0
        invariant Valid()
        invariant |agents| == |old(agents)| + i && agents[..|old(agents)|] == old(agents)
        invariant random.cursor == old(random.cursor) + i
        invariant forall k :: |old(agents)| <= k < |agents| ==>
          fresh(agents[k]) &&
          agents[k].uniqueId == k - |old(agents)| &&
          agents[k].node == nodes[RandBelow(random.source(old(random.cursor) + k - |old(agents)|), |nodes|)]
      {
        if |nodes| == 0 {
          return false;
        }
        var startNode := random.Choice(nodes);
        var agent := new Bacteria(i, startNode);
        agents := agents + [agent];
        i := i + 1;
      }
      return true;
    }

    /** The scheduler's activation of the bacterium at index `a`: its `step`, and nothing else. */
    method ActivateAgent(a: nat)
      requires Valid() && a < |agents|
      modifies random, agents[a]
      ensures Valid() && agents == old(agents)
      ensures Positions() == old(Positions())[a := MoveTarget(graph, old(Positions())[a], random.source(old(random.cursor)))]
      ensures random.cursor == old(random.cursor) + Draws(graph, old(Positions())[a])
    {
      var agent := agents[a];
      agent.Step(graph, random);
      assert forall i :: 0 <= i < |agents| && i != a ==> agents[i].node == old(agents[i].node);
    }

    /** The `j`-th activation of a pass over `order`: what is left of the pass is one activation shorter. */
    method ActivateNext(order: seq<nat>, j: nat)
      requires Valid() && Indexes(order, |agents|) && j < |order|
      modifies random, agents[order[j]]
      ensures Valid() && agents == old(agents)
      ensures Activate(graph, Positions(), order[j + 1..], random.source, random.cursor) ==
        Activate(graph, old(Positions()), order[j..], random.source, old(random.cursor))
    {
      ghost var pos, cur := Positions(), random.cursor;
      ActivateFrom(graph, pos, order, j, random.source, cur);
      ActivateAgent(order[j]);
    }

    /**
     * One tick: the scheduler activates every bacterium once, in the
     * shuffled order `order`. Only the bacteria's nodes and the generator
     * change; the bacteria themselves and their ids stay.
     */
    method Step(order: seq<nat>)
      requires Valid() && IsPermutation(order, |agents|)
      modifies random, agents
      ensures Valid() && agents == old(agents)
      ensures (Positions(), random.cursor) ==
        Activate(graph, old(Positions()), order, random.source, old(random.cursor))
    {
      var j := 0;
      while j < |order|
        invariant 0 <= j <= |order|
        invariant Valid()
        invariant Activate(graph, Positions(), order[j..], random.source, random.cursor) ==
          Activate(graph, old(Positions()), order, random.source, old(random.cursor))
      {
        ActivateNext(order, j);
        j := j + 1;
      }
      assert order[j..] == [];
    }

    /** Runs the simulation: `num_steps` ticks, in sequence, the `t`-th with activation order `orders[t]`. */
    method Run(orders: seq<seq<nat>>)
      requires Valid()
      requires |orders| == StepCount()
      requires forall t :: 0 <= t < |orders| ==> IsPermutation(orders[t], |agents|)
      modifies random, agents
      ensures Valid() && agents == old(agents)
      ensures AllIndex(orders, |agents|)
      ensures (Positions(), random.cursor) ==
        RunTicks(graph, old(Positions()), orders, random.source, old(random.cursor))
    {
      var t := 0;
      while t < numSteps
        invariant 0 <= t <= |orders|
        invariant Valid()
        invariant RunTicks(graph, Positions(), orders[t..], random.source, random.cursor) ==
          RunTicks(graph, old(Positions()), orders, random.source, old(random.cursor))
      {
        Step(orders[t]);
        assert orders[t..][1..] == orders[t + 1..];
        t := t + 1;
      }
    }
  }
}
