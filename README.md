# Bacteria on the road network, and the Montreal metro graphs

This project models two pieces of sequential graph logic in Dafny and proves what they promise.

**The random-walk simulation (`model.py`).**
- A `Population` holds a read-only road graph (OpenStreetMap intersections, directed), one shared pseudo-random generator, and a list of `Bacteria`.
- `init_agents` creates `num_agents` bacteria with ids `0, 1, ...`. Each stands on a node chosen at random from the graph's node list.
- Each tick, the random-activation scheduler activates every bacterium once, in a shuffled order.
- An activated bacterium moves to a randomly chosen successor of its node, or stays put when the node has none.
- `run` performs `num_steps` ticks.

The model keeps the source's form:
- `Model.Bacteria` and `Model.Population` are classes whose methods update the agents' `node` fields and the generator's cursor.
- `Bacteria.Move` and `Bacteria.Step` are proved to compute `Walk.MoveTarget`, one move.
- `Population.Step` is proved to compute `Walk.Activate`, one tick, and `Population.Run` `Walk.RunTicks`, a whole run.
- `Population.InitAgents` is proved against a closed form: the `i`-th new bacterium has id `i` and stands on the node at index `RandBelow` of the `i`-th draw.
- Lemmas about the `Walk` functions prove:
  - containment;
  - every move follows an edge;
  - a stuck bacterium stays stuck;
  - every agent is activated exactly once per tick;
  - order independence;
  - determinism from the generator's outputs.

The generator is `Randomness.RandomSource`. Its raw outputs are a fixed function `source` of the draw number, which stands for the seed. Its `cursor` counts the draws consumed so far. The scheduler's shuffle is an input: a permutation of agent indexes per tick.

**The metro graphs (`Metro_graph.py`).**
- `build_metro_graph` reads station rows, drops those outside the Montreal box, and groups stations by line in file order.
- It makes one node per station, at the station's last accepted position.
- It joins each two consecutive stations of a line by an edge coloured by the line.
- `build_redesign_graph` makes one node `"<line>_<i>"` per accepted row and links each line's nodes into a path.

Both are modelled as loop methods over already-read rows (`MetroData.RawRow`). Each is proved equal to a specification function (`MetroGraph.MetroSpec`, `RedesignGraph.RedesignSpec`), and the properties of the resulting graph are proved about that function. Both fill a dict of lists with `setdefault(line, []).append(value)`. That grouping is defined once, generically over the value, in `MetroData` (`Filed`, `GroupByLine`, `FiledOn`): the metro builder files station names, the redesign builder positions. A Python dict is a `map` plus the sequence of its keys in insertion order (`MetroData.FirstSeen`). An undirected edge is the set of its two end points, so adding an existing edge again only replaces its colour, as networkx does.

## Model

| member | source | states |
|---|---|---|
| Randomness.RandomSource.Choice | model.py:33 | `random.choice(xs)` consumes one draw and returns the element of `xs` at the drawn index; the result is in `xs` |
| Randomness.RandBelow | model.py:33 | the bounded draw inside `random.choice` (also model.py:71) is an index below the list length, and an output below the length is drawn as itself, so every index can be drawn |
| Model.Bacteria.constructor | model.py:51-61 | a new bacterium has the given id and stands on its start node |
| Model.Bacteria.GetNeighbors | model.py:63-65 | the neighbours are exactly the successors of the bacterium's node; under containment they are all nodes of the graph |
| Model.Bacteria.Move | model.py:67-71 | the new node is `MoveTarget` of the old node and the next draw; the generator advances by one draw only when there is a successor |
| Model.Bacteria.Step | model.py:73-75 | a step is exactly one move |
| Model.Population.constructor | model.py:12-27 | stores the counts and the graph, seeds the generator (cursor 0), and starts with no agents |
| Model.Population.InitAgents | model.py:29-35 | appends `num_agents` fresh bacteria with ids `0..num_agents-1` in creation order, the `i`-th at the node of the `i`-th draw; fails, with nothing created or drawn, exactly when agents are requested from a graph with no nodes; keeps every agent on a node |
| Model.Population.ActivateAgent | model.py:37-39 | activating one bacterium moves only that bacterium, as `MoveTarget` says; the agent list stays the same |
| Model.Population.ActivateNext | model.py:39 | one activation of a pass shortens the remaining pass by one activation and leaves its result unchanged |
| Model.Population.Step | model.py:37-39 | a tick in order `order` yields exactly the positions and the cursor of `Walk.Activate`; the agents, their ids and containment are preserved |
| Model.Population.Run | model.py:41-44 | `num_steps` ticks run in sequence and yield exactly `Walk.RunTicks`; the agent list is unchanged |
| Walk.MoveTarget | model.py:67-71 | with a successor, the move follows an edge; without one, the bacterium stays; under containment, the target is a node |
| Walk.EverySuccessorReachable | model.py:71 | every successor of a node is the outcome of some draw |
| Walk.Activate | model.py:37-39 | a pass keeps every agent on the graph and consumes at most one draw per activation |
| Walk.ActivateMovesEachListed | model.py:63-75 | with distinct agents, each listed agent makes one move from its own start node with the draw it is handed; unlisted agents stay; the cursor advances by the number of listed agents that have a successor |
| Walk.TickIsIndependentMoves | model.py:63-71 | a tick equals every agent moving once, independently, with its own handed draw |
| Walk.OrderIndependence | model.py:63-71 | two activation orders that hand each agent the same draw give the same positions |
| Walk.TickFollowsEdges | model.py:67-71 | in a tick, every agent with a successor ends on one of its successors, and every agent without one stays |
| Walk.StuckAgentStaysInTick | model.py:69-70 | an agent on a node with no successors is where it was after a tick |
| Walk.StuckAgentStaysInRun | model.py:41-44 | such an agent is still there after any number of ticks |
| Walk.ActivateReadsOnlyItsDraws | model.py:37-39 | a tick depends only on the generator outputs it consumes, so the same seed gives the same tick |
| Walk.RunIsTicksInSequence | model.py:41-44 | a run of `t + 1` ticks is a run of `t` ticks followed by one more tick from where it stopped |
| Walk.RunReadsOnlyItsDraws | model.py:41-44 | a whole run depends only on the generator outputs it can consume, so the same seed and orders give the same run |
| Walk.HandedReadsOnlyActivated | model.py:63-71 | the draws handed out and their number depend only on the positions of the agents being activated |
| Scheduler.EveryAgentActivatedOnce | model.py:26 | an activation order that is a permutation names every agent, each exactly once |
| MetroData.NegAbs | Metro_graph.py:26 | the stored longitude is never positive and has the magnitude of the input |
| MetroData.LineColour | Metro_graph.py:34-37 | a line's colour is gray exactly when the line is not one of the four named lines |
| MetroData.FirstSeen | Metro_graph.py:30 | the key order of the line dict lists each line that occurs, each exactly once |
| MetroGraph.MetroStop | Metro_graph.py:22-32 | a row is accepted exactly when its four fields were read and it lies in the box `45 <= lat <= 46`, `-74 <= lon <= -73` after the longitude is made negative; the stop keeps the row's line, station and latitude |
| MetroGraph.StopsAccepted | Metro_graph.py:21-32 | the stops kept are exactly those some row yields; rejected rows leave no trace |
| MetroData.GroupByLine | Metro_graph.py:30 | the keys of the dict filled by `setdefault(line, []).append(value)` are exactly the lines filed |
| MetroData.GroupByLineIsFilter | Metro_graph.py:30 | each line's list holds the values filed under that line, in file order (stations for the metro, positions for the redesigns, Metro_graph.py:66) |
| MetroData.FiledAppended | Metro_graph.py:66 | one more append puts the value at the end of its line's list, creating the list if the line is new, and a new line goes last in the key order (likewise Metro_graph.py:30) |
| MetroGraph.StopAppended | Metro_graph.py:29-30 | one more accepted row overwrites its station's position and files its station under its line, after all earlier ones |
| MetroGraph.GroupRow | Metro_graph.py:22-32 | one pass of the row loop: a row that yields a stop updates the positions, the key order and the station lists as that stop requires; any other row changes nothing |
| MetroGraph.GroupRows | Metro_graph.py:21-32 | the row loop yields the station positions, the key order of the lines and the station lists of the specification |
| MetroGraph.PlaceNodes | Metro_graph.py:39-40 | the node loop makes one node per station at its stored position |
| MetroGraph.JoinStations | Metro_graph.py:42-48 | the edge loops, with their membership test, add exactly the consecutive pairs of every line in key order, coloured by the line |
| MetroGraph.BuildMetroGraph | Metro_graph.py:9-49 | the graph built is `MetroSpec` of the rows |
| MetroGraph.LastPositionsAt | Metro_graph.py:29 | the position dict holds exactly the stations of the accepted rows, each at its last accepted row |
| MetroGraph.MetroNodes | Metro_graph.py:29-40 | the nodes are exactly the accepted stations, one per station however often it appears, at its last accepted position |
| MetroGraph.MembershipCheckHolds | Metro_graph.py:44 | every station on every line list is a node, so the membership test never skips a pair |
| MetroGraph.AddPairsAt | Metro_graph.py:43-48 | adding a line's pairs makes an edge new exactly when it joins consecutive stations, and gives it the line's colour; other edges keep theirs |
| MetroGraph.AddLinesAt | Metro_graph.py:42-48 | after all lines, an edge is present exactly when some line has it as a consecutive pair, and its colour is that of the last such line in key order |
| MetroGraph.MetroEdges | Metro_graph.py:42-48 | the edges are exactly the pairs of consecutive accepted stations along some line |
| MetroGraph.LastLineOnSomeLine | Metro_graph.py:42-44 | a line in key order joins an edge's stations exactly when some line of the file does |
| MetroGraph.MetroEdgeColours | Metro_graph.py:34-47 | each edge has the colour of the last line in key order that joins its stations, so a later line recolours an edge |
| RedesignGraph.RedesignPoint | Metro_graph.py:60-68 | a row is accepted exactly when its line and both coordinates were read and it lies in the box; the station column is not read |
| RedesignGraph.PointsAccepted | Metro_graph.py:59-68 | the points kept are exactly those some row yields |
| RedesignGraph.GroupPoints | Metro_graph.py:59-68 | the row loop yields the key order of the lines and the position lists of the specification |
| RedesignGraph.JoinPoints | Metro_graph.py:75-82 | the line loop, with its `prev` test, yields exactly the nodes and edges of the specification |
| RedesignGraph.BuildRedesignGraph | Metro_graph.py:52-84 | the graph built is `RedesignSpec` of the rows |
| RedesignGraph.Digits | Metro_graph.py:78 | `str(i)` is a non-empty string of decimal digits |
| RedesignGraph.NodeName | Metro_graph.py:78 | the id `f"{line}_{i}"` has `_` right after the line name and is longer than the line name |
| RedesignGraph.NodeNameReadsBack | Metro_graph.py:78 | an id reads back as its parts: it starts with the line name, and the digits after the `_` denote the index |
| RedesignGraph.DigitsRoundTrip | Metro_graph.py:78 | the decimal numeral of an index reads back as that index |
| RedesignGraph.NodeNameInjective | Metro_graph.py:78 | two points with the same node id have the same line and the same index |
| RedesignGraph.LinkInjective | Metro_graph.py:81 | links of different lines, or at different places on a line, are different edges |
| RedesignGraph.PreviousIdIsTruthy | Metro_graph.py:80 | no node id is empty, so the `prev` test passes for every point after the first of its line |
| RedesignGraph.AllNodesSpec | Metro_graph.py:75-79 | after all lines, the nodes are exactly the ids of the points, each at its own position |
| RedesignGraph.AllEdgesSpec | Metro_graph.py:75-82 | after all lines, the edges are exactly the links between consecutive points of a line, each in its line's colour |
| RedesignGraph.RedesignNodes | Metro_graph.py:75-79 | the nodes are exactly `<line>_<i>` for the `i`-th accepted row of each line |
| RedesignGraph.RedesignNodePositions | Metro_graph.py:77-79 | node `<line>_<i>` sits at the position of that line's `i`-th accepted row, in file order |
| RedesignGraph.RedesignEdges | Metro_graph.py:76-82 | the edges are exactly the links from `<line>_<i-1>` to `<line>_<i>`; since `prev` is reset per line, none joins two lines |
| RedesignGraph.RedesignEdgeColours | Metro_graph.py:70-81 | every link carries its own line's colour |

## Left out

- `map.py` and `run.py` are not part of this model. They download and plot the road graph, and load and animate it. The road graph is an input.
- Mersenne Twister: the generator's algorithm and its seeding are not modelled. Its outputs are an arbitrary function of the draw number, and a choice among `n` items takes the output modulo `n`.
- Model.Population.Step: the order is given, not drawn, so the cursor counts only the move draws and not the shuffle's draws. The shuffle is any permutation.
- Model.Population.InitAgents: mesa's scheduler refusal of a repeated agent id is not modelled, so a second call appends further bacteria.
- Progress reporting (tqdm) and mesa's `running` flag and step counter are not modelled; none of them affects where the bacteria go.
- Floating point is modelled as reals: the box test is exact and NaN does not arise.
- `Model.Bacteria.GetNeighbors` requires the node to be in the graph, where networkx would raise otherwise. Containment, kept by every method, shows this always holds.
- CSV reading, header stripping, encoding, decimal-comma replacement, float parsing, and title-casing of line names are not modelled. A row comes pre-read, and a field that failed to read is `None`; any such failure skips the row, as `except: continue` does.
- Plotting and the module-level loop over the input files (Metro_graph.py:86 onwards) are not modelled.
- networkx graphs are modelled by what they store: a node map with positions and an edge map keyed by the unordered pair with colours.
- No error is modelled for a non-positive count, an empty graph at construction, a `step` before `init_agents`, or a repeated `init_agents`, because the code raises none of them. No tick counter is modelled, because the code keeps none. The model follows the code: negative counts run zero iterations, and an empty node list fails only when an agent is requested.
