# Clock-sync simulator: a verified model

This project models the core of a discrete-time simulator for clock
synchronisation in reconfigurable (circuit-switched) data-centre networks.
A network is a schedule of time slices. Each slice is a graph whose edges
are circuits between two nodes, each edge with a port on either side.

Every node carries two values:
- a clock error, its offset from the reference node 0;
- an error bound, what the node believes its worst-case offset is.

Each round, a synchronisation algorithm runs over the slice that is live at
the current time:
- syncwise: adopt a neighbour's bound when it is tighter;
- dtp: take the largest neighbour error plus one hop;
- graham: neighbours of the reference node resync to it directly;
- spanning tree: sync along the breadth-first tree from node 0;
- firefly and optimised firefly: average with sampled peers.

Then every clock drifts for one interval, and the simulator records a
snapshot of the errors and bounds.

The model covers these parts:
- the topology generators: round robin, opera, opera with skew, shale,
  randomised slice order, skewed schedules and port offsets;
- assembling a schedule into one graph per slice (`generate_topo`);
- the six per-round algorithms, each with its path statistics;
- the `Simulator` object: constructor, round loop, error and bound
  accessors;
- the helpers that pick the current slice, list neighbours and detect
  convergence;
- the parameter draws (hop error, path asymmetry, drift, drift variance);
- `tod_to_ns`, which decodes a 96-bit time-of-day string from the FPGA
  test bench.

Modelling choices:
- Python floats are Dafny `real`s.
- Python integers are unbounded `int`s.
- Graphs are values: a node list, an adjacency map, and the port of each
  directed edge.
- The seeded random generator is an input. The normal, uniform and choice
  streams become functions from positions to values, read from a cursor.
  `rng.shuffle` is a function parameter constrained to be a permutation.
- Python exceptions are modelled as `Err(fault)` results:
  - assertion failures;
  - `ValueError`;
  - a zero divisor;
  - a missing dictionary key;
  - a name left unbound.
- The stateful parts are methods and a class:
  - the `Simulator` object, with `modifies` frames;
  - the path-statistics dictionaries;
  - the loops of the algorithms and generators.

  Each method is proved equal to a specification function, and the
  properties are proved about those functions.

Behaviour of the code that the model keeps:
- `firefly` draws its peers with `rng.choice` without `replace=False`, so a
  peer can be drawn more than once. `ChoiceReachesAll` states this.
- `firefly_optimized` divides by the neighbour count, so an isolated node
  raises `ZeroDivisionError`. `OptRunFails` states this.
- `firefly` divides by the degree of node 0, and measures hop counts on the
  slice of the current round.
- `spanning_tree` syncs every child from its parent's error and bound as
  they were before the round (`prev_error`, `prev_bound`), plus one hop.
  `TreeRound` and `TreeEdgeSynced` state this.
- `spanning_tree` follows `nx.bfs_tree`: parents in queue order, every node
  found by the first queued node adjacent to it, one parent's children in
  its neighbour order. `BfsTree` proves its search is such a search, and
  `BfsUnique` proves there is only one.
- The failure paths of `run` take `copy()` of the slice, which rebuilds
  every neighbour list: the neighbours listed earlier in the node order come
  first. `CopySpec` states the order and `CopyReorders` shows a list that
  changes.
- `np.delete` of the failed nodes raises `IndexError` for an id outside
  [-n, n) and counts a negative id from the end, as numpy does from release
  1.19 on. The IndexError comes after the vectors have been advanced, so
  they stay advanced and the history does not grow.
- `sync_algo` is called with the path statistics exactly when the name is
  "syncwise" or "ptp". Any other pairing of name and algorithm is a
  `TypeError`, modelled as `ArgumentMismatch`.
- `shale` computes its root with `math.pow` and `int`. A zero dimension
  divides by zero; a root of 0 under a negative dimension divides by zero
  in `root ** h`; `math.pow` rejects a zero base with a negative exponent
  and a negative base with a fractional one. A negative size handed to
  `reshape` is the size numpy infers, so `shale(-1, 1)` gives no circuit.
- `get_clock_errors` recentres the errors only for the name `"firefly"`,
  not for `"dtp"`.
- `topo_randomize_ts` and `make_topo_skew` sort circuits by their second
  port.

## Model

| member | source | states |
|---|---|---|
| Builtins.FloorMod | simulator/utils.py:7 | Python's `%`: a == b·(a // b) + r, with r in [0, b) for a positive divisor and in (b, 0] for a negative one |
| Builtins.Range | simulator/topo.py:89 | `list(range(n))` has max(n, 0) entries and entry i is i |
| Builtins.Recentre | simulator/algo.py:172 | subtracting the mean gives a vector summing to zero, with every pairwise difference kept |
| Builtins.SumAppend | simulator/algo.py:168 | the sum of a concatenation is the sum of the two sums |
| Builtins.DeleteAtLength | simulator/simulator.py:158-159 | deleting a set of positions removes one entry for each position of the set that lies inside the vector |
| Builtins.DeleteAtKept | simulator/simulator.py:158-159 | the entries left after deleting a set of positions are the original entries at the positions outside the set, in order |
| Builtins.WrappedBelow | simulator/simulator.py:158-159 | when every id lies in [-n, n), the positions the ids name, negative ones from the end, are positions of the vector |
| Builtins.NpDelete | simulator/simulator.py:158-159 | `np.delete(v, ids)` raises IndexError iff some id lies outside [-n, n); otherwise it has n less the number of distinct positions the ids name, a negative id naming n + id |
| Builtins.NpDeleteKept | simulator/simulator.py:158-159 | entry j of `np.delete(v, ids)` is the entry at the j-th position, in increasing order, that no id names directly or from the end; every such position is kept |
| Builtins.KeptComplete | simulator/simulator.py:158-159 | the kept positions are exactly the positions below n outside the set, strictly increasing |
| Utils.SliceIndex | simulator/utils.py:6-7 | the current slice index lies in [0, number of slices) |
| Utils.GetCurTopo | simulator/utils.py:5-9 | the graph returned is a slice of the schedule: the one keyed `(t // d) % n` |
| Utils.SlicePeriodic | simulator/utils.py:5-9 | the slice repeats every n · d time units |
| Utils.SliceConstantWithin | simulator/utils.py:5-9 | the slice stays the same for all times within one slice duration |
| Utils.GetNeighbors | simulator/utils.py:11-12 | v is listed iff the graph has an edge from node to v; no node is listed twice; a self-loop lists the node itself |
| Utils.CheckConverge | simulator/utils.py:494-503 | returns true iff some recorded bound vector equals an earlier one, consecutive or not; false when at most one vector is recorded; the pair found is the first repeat in the scan order (least id1, then least id2) |
| Utils.RowsEqual | simulator/utils.py:498 | the element-wise `all(==)` holds iff the two rows are equal |
| Para.Clip | simulator/para.py:11 | the clipped value lies in [-b, b] and equals the input when it is already inside |
| Para.Uniform | simulator/para.py:14-25 | `rng.uniform(lo, hi)` from a unit draw lies in [lo, hi), and in [lo, hi] when lo = hi |
| Para.HopError | simulator/para.py:9-12 | the hop error lies within [-b, b], is no larger in magnitude than b/3 · z, has the sign of the normal draw z, and is exactly b/3 · z when z lies within three sigma |
| Para.PathAsymmetry | simulator/para.py:14-18 | the path asymmetry lies within [-b, b), for a positive bound b |
| Para.RuntimeDriftVariance | simulator/para.py:19-25 | one sample per node, sample i within [-dv_i, dv_i] |
| Para.GenDrift | simulator/para.py:34-40 | node 0 does not drift; every other drift rate is b/3 · z_i; b defaults to 40 |
| Para.DriftWithinThreeSigma | simulator/para.py:26-40 | a draw within three sigma yields a drift rate within [-b, b] |
| Para.GenDriftVariance | simulator/para.py:42-49 | node 0 has variance 0; every other variance is the uniform draw in [0, b); b defaults to 50 |
| Para.SortDesc | simulator/para.py:57 | the descending sort is non-increasing and a permutation of its input |
| Para.SortedWithin | simulator/para.py:51-62 | sorting keeps every value within [0, b] |
| Para.GenDriftVarianceTree | simulator/para.py:51-62 | node 0 has variance 0; the rest are the uniform draws sorted in descending order, hence non-increasing and a permutation of the draws |
| Tod.ParseBin | fpga/mqnic/Alveo/fpga_100g/tb/time_sync/test_time_sync.py:58-60 | on the characters a `binstr` holds, `int(s, 2)` fails iff s is empty or holds a character other than 0 and 1 (an unresolved x or z bit); otherwise it is the binary value, below 2^len |
| Tod.BinRoundTrip | fpga/mqnic/Alveo/fpga_100g/tb/time_sync/test_time_sync.py:58-60 | parsing the fixed-width binary rendering of a value gives the value back |
| Tod.BinRoundTripBack | fpga/mqnic/Alveo/fpga_100g/tb/time_sync/test_time_sync.py:58-60 | rendering a parsed binary string at its own width gives the string back |
| Tod.Decode | fpga/mqnic/Alveo/fpga_100g/tb/time_sync/test_time_sync.py:47-60 | decoding fails iff the width is not 96 or a field is not binary; otherwise seconds fit 48 bits, nanoseconds 32 and fractional nanoseconds 16 |
| Tod.BinarySplit | fpga/mqnic/Alveo/fpga_100g/tb/time_sync/test_time_sync.py:53-55 | a 96-character string is binary iff each of its three fields (48, 32 and 16 bits) is |
| Tod.DecodeEncode | fpga/mqnic/Alveo/fpga_100g/tb/time_sync/test_time_sync.py:47-60 | decoding the encoding of in-range fields gives the fields back |
| Tod.EncodeDecode | fpga/mqnic/Alveo/fpga_100g/tb/time_sync/test_time_sync.py:47-60 | encoding the fields of a decodable string gives the string back |
| Tod.ToNs | fpga/mqnic/Alveo/fpga_100g/tb/time_sync/test_time_sync.py:65-70 | the nanosecond value lies in [s·10^9 + ns, s·10^9 + ns + 1) |
| Tod.Fraction | fpga/mqnic/Alveo/fpga_100g/tb/time_sync/test_time_sync.py:68 | the fractional nanoseconds `fns / 2^16` lie in [0, 1) |
| Tod.TodToNs | fpga/mqnic/Alveo/fpga_100g/tb/time_sync/test_time_sync.py:47-72 | `tod_to_ns` succeeds iff the input is a 96-character binary string, fails with the width error first and the parse error second, and otherwise yields the nanosecond value of its decoded fields |
| Graphs.EmptySpec | simulator/topo.py:38-43 | a fresh slice graph holds exactly the nodes 0..n-1, in order, with no edge and no port |
| Graphs.AddNodeFacts | simulator/topo.py:42-43 | adding a node keeps the ports, the edges and the earlier node list, and keeps the graph well formed |
| Graphs.AddEdgeSpec | simulator/topo.py:45 | `add_edge(a, b, port1, port2)` adds the edge both ways, records each side's port (overwriting a repeated edge's) and adds any missing endpoint; nothing else changes |
| Graphs.AddEdgeValid | simulator/topo.py:45 | adding an edge keeps the graph well formed: symmetric adjacency, ports on exactly the edges, distinct node list |
| Graphs.RemoveNodes | simulator/simulator.py:111 | `remove_nodes_from` keeps exactly the other nodes, in order, and the edges between them; each remaining list keeps its order without the removed nodes |
| Graphs.RemoveEdges | simulator/simulator.py:116 | `remove_edges_from` keeps every node and every edge not listed in either direction; each list keeps its order without the far ends of the removed edges |
| Graphs.CopySpec | simulator/simulator.py:110 | `copy()` keeps the nodes, the edges and their ports, and lists each node's neighbours in CopyOrder: those earlier in the node order first, in that order, then the rest in the node's own order |
| Graphs.CopyOrderHas | simulator/simulator.py:110 | the copy's list of a node holds exactly its neighbours, each once |
| Graphs.CopyReorders | simulator/simulator.py:110 | on nodes 0..3 after `add_edge(1, 2)` and `add_edge(0, 1)`, node 1 lists [2, 0] and its copy lists [0, 2] |
| Graphs.BfsTree | simulator/algo.py:110 | `bfs_tree(g, s).edges()`: the search lists each node once, the source first, and exactly the nodes reachable from it; edge k joins the parent of entry k + 1 to that entry; and it is a breadth-first search (IsBfs): parents in queue order, each node found by the first queued node adjacent to it, one parent's children in its neighbour order |
| Graphs.BfsUnique | simulator/algo.py:110 | two breadth-first searches from the same source have the same order and the same parents, so the tree is determined by the graph |
| Graphs.BfsParentFirst | simulator/algo.py:110 | in a breadth-first search the parent of the next entry is a neighbour of it, and every earlier queued node has all its neighbours already listed |
| Graphs.BfsChildFirst | simulator/algo.py:110 | the next entry is its parent's first neighbour, in list order, not yet listed |
| Graphs.ClosedHoldsReachable | simulator/algo.py:110 | a node set containing the root and closed under edges contains every reachable node |
| Graphs.BallIsShortWalks | simulator/algo.py:142 | the k-step ball is exactly the set of nodes reachable by a walk of at most k edges |
| Graphs.BallSettles | simulator/algo.py:142 | the ball stops growing within as many steps as the graph has nodes |
| Graphs.Dist | simulator/algo.py:142 | `shortest_path_length` is absent iff the target is unreachable; otherwise a walk of that length exists and none is shorter |
| Graphs.DistMeaning | simulator/algo.py:142 | the search over growing balls finds the least k whose ball holds the target, or nothing exactly when the target is unreachable |
| Circuits.SortBy | simulator/topo.py:224 | sorting by a key gives a list ordered by that key and a permutation of its input |
| Circuits.SortStable | simulator/topo.py:224 | the sort is stable: circuits with equal keys keep their relative order |
| Circuits.SortByConstantKey | simulator/topo.py:224 | sorting a list whose keys are all equal leaves it unchanged |
| Circuits.MaxSlice | simulator/topo.py:297-300 | the running maximum starts at 0: it is at least every slice id, and either 0 or one of them |
| Circuits.MaxPort | simulator/topo.py:311-316 | the running maximum over both ports starts at 0: it is at least every port, and either 0 or one of them |
| Circuits.NbTimeSlice | simulator/topo.py:289-301 | the slice count is the maximum plus one: at least 1, and above every slice id |
| Circuits.NbLinks | simulator/topo.py:303-317 | the link count is the maximum plus one: at least 1, and above every port |
| Circuits.ConcatJoins | simulator/topo.py:100-110 | when exactly one of the concatenated lists joins two nodes, once, the concatenation joins them once |
| Circuits.ConcatTouch | simulator/topo.py:100-110 | when only list s touches a node in slice s, at most once, the concatenation touches it at most once in that slice |
| Topo.Fill | simulator/topo.py:38-43 | filling up to slice ts keeps the existing slices and adds an empty graph on nodes 0..n-1 for every missing id in 0..ts |
| Topo.GenerateTopo | simulator/topo.py:15-49 | the imperative `generate_topo` returns the specification's result: `{0: g}` for a static graph, the assembled schedule for circuits |
| Topo.BuildSchedule | simulator/topo.py:34-47 | the loop over circuits builds the same schedule as the specification function, or fails at the first negative slice id |
| Topo.PlaceCircuit | simulator/topo.py:38-45 | placing a circuit fails iff its slice id is negative (the missing key); otherwise the map is the partial schedule with that circuit added |
| Topo.ScheduledContiguous | simulator/topo.py:34-47 | an assembled schedule is keyed 0..k-1, with k the largest slice id plus one (0 for no circuit), and holds every circuit's slice |
| Topo.GeneratedContiguous | simulator/topo.py:15-49 | whatever `generate_topo` returns is keyed 0..k-1; a static graph is slice 0 |
| Topo.SliceValid | simulator/topo.py:38-45 | every slice is a well-formed graph whose ports agree in both directions, and it starts with nodes 0..n-1 |
| Topo.SliceEdges | simulator/topo.py:45 | slice k has an edge u–v iff some circuit of slice k joins u and v |
| Topo.SlicePorts | simulator/topo.py:45 | each edge of slice k carries the ports of the last circuit of that slice that joins its endpoints |
| Topo.SliceNodes | simulator/topo.py:42-45 | the nodes of slice k are 0..n-1 plus the endpoints of its circuits |
| Topo.SliceUntouched | simulator/topo.py:38-45 | a slice that no circuit names is the empty graph on nodes 0..n-1 |
| RoundRobin.RoundRobin | simulator/topo.py:69-119 | `round_robin` fails iff the link count is not 1; otherwise it is the circle method on the padded node list, empty for no node |
| RoundRobin.RoundRobinLoop | simulator/topo.py:69-119 | the imperative loop with pop and insert builds the same circuits as the specification function |
| RoundRobin.Padded | simulator/topo.py:96-98 | the padded list has even length, keeps the original as a prefix, and adds at most the dummy -1 |
| RoundRobin.ArrangeFull | simulator/topo.py:102-110 | after n-1 rotations the list is back in its original order |
| RoundRobin.PopInsert | simulator/topo.py:110 | `insert(1, pop())` is one rotation of the list |
| RoundRobin.PairRound | simulator/topo.py:103-109 | one round pairs position i with position n-1-i, skipping the dummy, on the given ports |
| RoundRobin.AllRounds | simulator/topo.py:102-110 | the loop of n-1 rounds produces the specification's rounds and leaves the list in its n-1-times rotated order |
| RoundRobin.CircleLoop | simulator/topo.py:100-117 | the rounds plus the optional loop-back slice are the circle method |
| RoundRobin.CircleShape | simulator/topo.py:100-117 | every circuit uses the given ports and a slice in 0..n-1; round circuits join two distinct real nodes of the list; the loop-back slice n-1 holds only self-loops, the dummy's among them for an odd list |
| RoundRobin.CircleMatching | simulator/topo.py:102-110 | within each round, every node is touched at most once |
| RoundRobin.CirclePairsOnce | simulator/topo.py:102-110 | every two distinct real nodes of the padded list are joined by exactly one circuit |
| RoundRobin.RoundRobinIsCircle | simulator/topo.py:83-119 | with one link, `round_robin` is the circle method on the padded list, or empty for no node |
| RoundRobin.RoundRobinPairsOnce | simulator/topo.py:69-119 | for distinct real nodes, `round_robin` succeeds, touches each node at most once per round, and joins every two of them exactly once |
| RoundRobin.MeetOnce | simulator/topo.py:102-110 | two distinct positions face each other in exactly one of the n-1 rounds |
| Schedules.CollectSlices | simulator/topo.py:227-229 | `ts_set` holds exactly the slice ids of the circuits |
| Schedules.SortIds | simulator/topo.py:231 | the imperative `sorted(list(ts_set))` gives the sorted id list |
| Schedules.SortedIdsSpec | simulator/topo.py:231 | the sorted id list is strictly increasing, as long as the set, and holds exactly its members |
| Schedules.Merge | simulator/topo.py:144-147 | the merge fails iff the link count is 0 and there is a circuit; otherwise each circuit keeps its nodes, gets both ports p = ts % L and slice k with ts = k·L + p |
| Schedules.MergeLoop | simulator/topo.py:144-147 | the imperative merge loop builds the same result as the specification function |
| Schedules.MergedFrom | simulator/topo.py:144-147 | every merged circuit comes from an input circuit with the same nodes, whose slice is its slice times L plus its port |
| Schedules.RelabelSpec | simulator/topo.py:235-237 | relabelling succeeds iff every slice id indexes the shuffled list (negative ids from the end); it then moves each circuit to `shuffled[ts]`, and otherwise reports the first id that cannot |
| Schedules.TopoRandomizeTs | simulator/topo.py:220-243 | the imperative `topo_randomize_ts` sorts by second port, relabels through the shuffled sorted ids and sorts by slice, as the specification function does |
| Schedules.RandomizedFails | simulator/topo.py:220-243 | for a true shuffle, randomising succeeds iff every slice id lies in [-k, k), for k distinct ids |
| Schedules.RandomizedMoves | simulator/topo.py:220-243 | on success the result is as long as the input, sorted by slice, holds every circuit moved to its shuffled slice and nothing else |
| Schedules.RandomizedPermutes | simulator/topo.py:220-243 | with non-negative ids, the relabelling maps the slice ids one-to-one onto the slice ids, so two circuits share a slice afterwards iff they did before |
| Schedules.MakeTopoSkew | simulator/topo.py:245-266 | the imperative `make_topo_skew` sorts by second port, adds the copies and sorts by slice, as the specification function does |
| Schedules.SkewLength | simulator/topo.py:245-266 | the skewed list has len + ratio · (circuits on a slice below half) entries, and is sorted by slice |
| Schedules.SkewContents | simulator/topo.py:245-266 | the skewed list keeps every original circuit, adds only copies of circuits below half shifted by j·half for 1 <= j <= ratio, and equals the input as a multiset for a ratio of 0 or less |
| Schedules.SkewGrows | simulator/topo.py:245-266 | for a positive ratio, the skew leaves the length unchanged iff no circuit lies on a slice below half |
| Schedules.Opera | simulator/topo.py:121-156 | the imperative `opera` is round robin with self-loops, the slice randomisation, then the merge |
| Schedules.OperaShape | simulator/topo.py:121-156 | opera fails iff some base slice id falls outside the shuffled list or the link count is 0; otherwise it keeps the number of circuits, and every circuit has equal ports inside [0, L) and comes from a base circuit whose shuffled slice is its slice times L plus its port |
| Schedules.OperaSkew | simulator/topo.py:158-193 | the imperative `opera_skew` is round robin with self-loops, the merge without randomisation, the skew, and the assertion that a positive ratio lengthened the list |
| Schedules.OperaSkewGrows | simulator/topo.py:189-191 | the assertion fails iff the ratio is positive and no merged circuit lies below half the slice count; on success the list has len + ratio · (that count) entries |
| Schedules.PortOffset | simulator/topo.py:268-287 | the imperative `port_offset` is the specification function sized by the two helpers |
| Schedules.PortOffsetSpec | simulator/topo.py:268-287 | `port_offset` fails iff some circuit's two ports differ; otherwise it has L copies per circuit, all on slices in [0, S·L), each copy j < L of an input circuit, and every such copy |
| Schedules.OffsetShape | simulator/topo.py:277-286 | the offset loop fails iff some circuit's ports differ, and otherwise yields L circuits per input circuit |
| Schedules.OffsetMembers | simulator/topo.py:277-286 | on success the loop holds exactly the copies 0..L-1 of every input circuit, on slices in [0, S·L) |
| Schedules.OffsetCopiesDistinct | simulator/topo.py:280-285 | the L copies of one circuit lie on L distinct slices when L <= S·L |
| Schedules.CopiesSpec | simulator/topo.py:260-261 | the skew copies of a circuit number max(ratio, 0), the j-th on slice ts + j·half |
| Shale.Root | simulator/topo.py:204 | the integer root r satisfies r^h <= n < (r+1)^h |
| Shale.RootExact | simulator/topo.py:204-205 | the assertion `root ** h == n` holds iff n is an h-th power |
| Shale.IndexInjective | simulator/topo.py:208 | the reshape is one-to-one: distinct coordinate tuples over [0, root) have distinct flat indexes |
| Shale.TuplesSpec | simulator/topo.py:212 | `itertools.product(range(root), repeat=k)` yields root^k tuples, exactly the k-digit tuples over [0, root) |
| Shale.Shale | simulator/topo.py:195-218 | the imperative `shale` returns the specification's result |
| Shale.CubeLoop | simulator/topo.py:211-216 | the loop over axes yields the circuits of every axis in turn |
| Shale.AxisLoop | simulator/topo.py:212-216 | the loop over base tuples yields the circuits of every line along one axis |
| Shale.LineLoop | simulator/topo.py:214-216 | one line is a round-robin schedule over its nodes, ported at the axis |
| Shale.ShaleFails | simulator/topo.py:195-218 | `shale` divides by zero for h = 0 and for a root of 0 under h < 0 (n ≥ 2, or n ≤ -2 with h = -1); fails the assertion iff h > 0, n ≥ 0 and n is not an h-th power, taking the root exactly (see Shale.Root under Left out); hits `math.pow`'s domain for h ≥ 2 or h ≤ -2 with n < 0, and for h < 0 with n = 0; fails the reshape for h = n = -1; succeeds otherwise, and the calls with h < 0 or n < 0 that succeed give no circuit |
| Shale.ShaleAxes | simulator/topo.py:195-218 | on success with h >= 1, every circuit has both ports equal to an axis in [0, h) and joins two cells that differ only along that axis |
| Shale.EmptyCube | simulator/topo.py:204-216 | the one-dimensional cube over no node is one line of no node and holds no circuit |
| Shale.ShaleIsCube | simulator/topo.py:195-218 | on success with h >= 1, n is root^h and `shale` is the cube of round-robin lines |
| Shale.LinePairsOnce | simulator/topo.py:214-216 | two distinct cells of one line are joined exactly once by that line's schedule |
| Algo.ValidIndexes | simulator/algo.py:33 | a valid slice whose node ids lie in [0, n) indexes vectors of length n, neighbours included |
| Algo.PathStats.constructor | simulator/simulator.py:63-64 | the tracker and the counter start with a zero for every node of slice 0 |
| Algo.TallyCounts | simulator/algo.py:48-49 | tallying succeeds iff every hop count is a key; it keeps the keys and adds to each entry the number of occurrences of its key |
| Algo.FirstMin | simulator/algo.py:36 | `min(..., key=bound)` picks a neighbour with the least bound, the first one among equals |
| Algo.Chosen | simulator/algo.py:36 | the chosen neighbour is a neighbour whose bound is no larger than any other neighbour's |
| Algo.AdoptCountIsCard | simulator/algo.py:38-41 | over distinct nodes, the number of adopters counted equals the size of the set of adopters |
| Algo.Syncwise | simulator/algo.py:15-57 | the imperative `syncwise` returns the specification's round (errors, bounds, sync count, or the KeyError) and leaves the tracker and counter as the specification does |
| Algo.SyncwiseRound | simulator/algo.py:15-57 | a round can fail only on a hop count the counter lacks; otherwise the sync count is the number of adopters, each adopter takes its chosen neighbour's previous bound plus h, its previous error plus its own draw's hop error, and a hop count one above the neighbour's, every other entry is kept, and the counter tallies the non-zero hop counts |
| Algo.SyncwiseLowers | simulator/algo.py:38-39 | a clean round never raises a bound, and strictly lowers every adopter's |
| Algo.SyncwiseHops | simulator/algo.py:46-47 | with non-negative starting hop counts, every adopter ends with a hop count of at least one |
| Algo.Graham | simulator/algo.py:84-100 | the imperative `graham` returns the specification's round and reads one draw per sync |
| Algo.GrahamRound | simulator/algo.py:84-100 | the nodes adjacent to node 0 are counted and each takes the bound h and the hop error of its own draw; every other node keeps its values |
| Algo.GrahamCount | simulator/algo.py:93-98 | the graham sync count is the degree of node 0 |
| Algo.RootCountIsCard | simulator/algo.py:93-98 | over distinct nodes, the count is the size of the set of nodes adjacent to node 0 |
| TreeSync.SpanningTree | simulator/algo.py:101-129 | `spanning_tree` fails when node 0 is not in the slice; otherwise its edges are those of the breadth-first search from 0 (IsBfs), which covers exactly the nodes reachable from 0, and the result and the path statistics are the specification's run over those edges |
| TreeSync.TreeDetermined | simulator/algo.py:110-115 | two edge lists that both follow a breadth-first search from 0 are the same list, so the round of a slice is determined |
| TreeSync.SyncAlongTree | simulator/algo.py:115-125 | the loop over the tree edges returns the specification's run and leaves the tracker and counter as it does |
| TreeSync.SyncOnEdge | simulator/algo.py:116-125 | one edge syncs its child from its parent, as the specification step does |
| TreeSync.TreeRound | simulator/algo.py:101-129 | a run can fail only on a hop count the counter lacks; otherwise it counts one sync per tree edge, every child takes its parent's previous bound plus h and error plus its draw's hop error, every node off the tree is kept, and the counter tallies the non-zero hop counts |
| TreeSync.TreeEdgeSynced | simulator/algo.py:117-118 | after a clean run, every tree edge's child holds its parent's previous values plus one hop |
| TreeSync.TreeCountIsReachable | simulator/algo.py:110-121 | the sync count, one per tree edge, is the number of nodes reachable from node 0, less one |
| Consensus.Centre | simulator/algo.py:79 | `now_error - np.average(now_error)` sums to zero and keeps every pairwise difference |
| Consensus.Dtp | simulator/algo.py:59-82 | the imperative `dtp` keeps the bounds, counts no sync, and returns the recentred errors of the specification's run |
| Consensus.DtpRound | simulator/algo.py:69-76 | every node with a neighbour takes the largest neighbour error plus the hop error of its own draw; every other entry is kept; one draw per such node |
| Consensus.DtpWithinHop | simulator/algo.py:76 | each synced node's new error lies within h of the largest neighbour error |
| Consensus.OptErrorIsMeanPlusNoise | simulator/algo.py:194-195 | dividing the neighbours' errors plus n copies of one hop error by n gives their mean plus that hop error |
| Consensus.FireflyOptimized | simulator/algo.py:179-202 | the imperative `firefly_optimized` fails as the specification's run does; otherwise it keeps the bounds, counts no sync, and returns the recentred errors |
| Consensus.OptLoop | simulator/algo.py:191-195 | the node loop returns the specification's run |
| Consensus.OptVisit | simulator/algo.py:192-195 | one node's step is the specification's node update |
| Consensus.OptRunFails | simulator/algo.py:195 | the run fails iff some visited node has no neighbour (ZeroDivisionError) |
| Consensus.OptRound | simulator/algo.py:179-202 | when every node has a neighbour the run succeeds, each node takes its neighbours' mean error plus its own draw's hop error, ids outside the slice are kept, and one draw is read per node |
| Firefly.HopNoise | simulator/algo.py:163-164 | the noise of a d-hop path lies within d·(h + 10) |
| Firefly.PathLengths | simulator/algo.py:142 | a peer's path length is absent iff the peer is unreachable |
| Firefly.PeerNoiseBound | simulator/algo.py:155-164 | the total noise of the peers lies within (h + 10) times the sum of the path lengths of the reachable ones |
| Firefly.UnreachablePeersAddNothing | simulator/algo.py:156-158 | with no reachable peer, a node adds no noise and reads no draw |
| Firefly.Choice | simulator/algo.py:150 | `rng.choice(others, size=n)` returns n peers, each one of the other nodes |
| Firefly.ChoiceReachesAll | simulator/algo.py:150 | peers are drawn with replacement: every sequence of other nodes, repeats included, is a possible choice |
| Firefly.NodeSync | simulator/algo.py:148-168 | a node's step fails iff node 0 has no neighbour (ZeroDivisionError) or there is no other node to pick from (ValueError); otherwise it picks as many peers as node 0 has neighbours and averages over them |
| Firefly.Average | simulator/algo.py:155-168 | averaging reads one hop error and one asymmetry per hop of the paths to the reachable peers |
| Firefly.AverageNearMean | simulator/algo.py:155-168 | the new error lies within (h + 10)·(total hops)/(peers) of the peers' mean, and equals it when no peer is reachable |
| Firefly.FireRoundFails | simulator/algo.py:145-168 | a round over a non-empty slice fails iff node 0 has no neighbour (ZeroDivisionError) or the slice has a single node (ValueError) |
| Firefly.FireRoundSynced | simulator/algo.py:148-168 | in a clean round every node takes the error its own step computes at the stream positions reached before it |
| Firefly.FireRoundUntouched | simulator/algo.py:148-168 | ids outside the slice keep their previous error |
| Firefly.Firefly | simulator/algo.py:131-177 | `firefly` fails when node 0 is not in the slice, and with the node loop's fault; otherwise it keeps the bounds, counts no sync and returns the recentred errors |
| Firefly.FireLoop | simulator/algo.py:148-168 | the node loop returns the specification's run |
| Firefly.FireVisit | simulator/algo.py:149-168 | one node's step is the specification's node step |
| Firefly.AverageLoop | simulator/algo.py:152-168 | the noise loop and the division compute the specification's average |
| Sim.Initial | simulator/simulator.py:61-64 | the starting vector has n entries (at least 1), 0 for the reference and 1000 for every other node |
| Sim.Filter | simulator/simulator.py:107-116 | failed nodes together with failed links, or a slice without all n nodes, is an error; otherwise exactly the surviving nodes and the edges between them that are not failed links, each neighbour list in the copy's order less the removed entries; with no failure, the slice itself |
| Sim.Increment | simulator/simulator.py:141-150 | with offset drift the rate is the jitter alone; otherwise it is the drift rate plus the jitter |
| Sim.Advance | simulator/simulator.py:141-153 | the reference is pinned to 0 when the name pins it; for a non-negative interval, a non-negative rate never lowers a value; a zero interval changes nothing. With `Commit`, this gives that drift never lowers a bound when the drift variance is non-negative |
| Sim.Scaled | simulator/simulator.py:142-150 | `x · d / 10^6` is non-negative for non-negative x and d, and 0 for d = 0 |
| Sim.Snapshot | simulator/simulator.py:156-164 | the record is the vector itself without failures; with failures it is `np.delete`'s: IndexError iff an id lies outside [-n, n), otherwise n less the number of positions the ids name |
| Sim.SnapshotWraps | simulator/simulator.py:158-159 | a failed id -k drops the same entry as the id n - k |
| Sim.SnapshotWidth | simulator/simulator.py:156-164 | with distinct in-range failed ids, each snapshot has n minus the failed count entries |
| Sim.From | simulator/simulator.py:172-181 | Python's `s[start:]` is a suffix, clamped at both ends, with negative starts counting from the end |
| Sim.AbsRows | simulator/simulator.py:175 | `np.abs` keeps the shape and replaces each entry by its magnitude |
| Sim.CentreRows | simulator/simulator.py:177-179 | every recentred row keeps its length and sums to zero |
| Sim.CentreShift | simulator/simulator.py:177-179 | internal errors ignore a common offset: shifting a row does not change its recentred form |
| Sim.RoundIndex | simulator/simulator.py:101-103 | the round at time k · d has slice-time index k |
| Sim.Simulator.constructor | simulator/simulator.py:11-79 | the constructor starts both vectors at `Initial`, the history empty, the hop bound defaulting to 5, and path statistics at zero for the nodes of slice 0; node 0 has drift rate and variance 0; every other node i has drift rate b/3 · z_i (b the drift bound, 40 by default) and variance `uniform(0, b')` of its draw (b' the variance bound, 50 by default), for "ptp" the descending sort of those draws |
| Sim.Simulator.Jitter | simulator/simulator.py:85-86 | one runtime jitter sample per node, within its drift-variance bound |
| Sim.Simulator.SyncRound | simulator/simulator.py:119-139 | a name that passes the path statistics to an algorithm without them, or the reverse, is a TypeError; otherwise syncwise, graham and dtp return exactly their specification rounds, averaging algorithms keep the bounds and count nothing, and only syncwise and spanning tree touch the path statistics |
| Sim.Simulator.Commit | simulator/simulator.py:141-164 | the new vectors are the round's result advanced by one interval of drift and pinned, and the jitter cursor moves by n; then either one `np.delete` snapshot of each is appended, or, iff a failed id lies outside [-n, n), IndexError with the history unchanged |
| Sim.Simulator.Select | simulator/simulator.py:97-116 | the schedule is replaced at the update round; the slice is `get_cur_topo`'s, filtered through the copy and the removals; a zero slice duration is division by zero |
| Sim.Simulator.Apply | simulator/simulator.py:119-164 | a TypeError or a failing round changes neither vectors nor history; a clean round advances the vectors, then records its snapshots, or raises IndexError with the history unchanged iff a failed id lies outside [-n, n); the result is the round's sync count |
| Sim.Simulator.Step | simulator/simulator.py:97-164 | one pass of the loop: the schedule update, the filtered slice or its fault, then Apply's vectors and history; every failure leaves the history unchanged |
| Sim.Simulator.Tick | simulator/simulator.py:97-164 | one pass grows the history by exactly one snapshot, or fails leaving it as it was |
| Sim.Simulator.Run | simulator/simulator.py:88-170 | `run(iter)` records exactly iter rounds on success; a non-positive iter, or a non-positive sync interval, runs no round (the print's name is unbound); a zero slice duration and both failure kinds are errors; the schedule is the update's once its round has run |
| Sim.Simulator.GetErrorBound | simulator/simulator.py:180-181 | the recorded bounds from `start` on, a suffix of the history |
| Sim.Simulator.GetInternalClockErrors | simulator/simulator.py:177-179 | each recorded error row from `start` on, recentred on its mean, in magnitude |
| Sim.Simulator.GetClockErrors | simulator/simulator.py:172-175 | for "firefly" the internal errors; otherwise the magnitudes of the recorded errors from `start` on |

## Left out

- Plotting, printing, progress output and `compute_skewness` in utils.py: reporting only.
- The random generator itself. Its normal, uniform and choice draws are inputs. How one generator interleaves its streams is not modelled.
- `rng.shuffle` is an arbitrary permutation, not numpy's algorithm. Firefly.Others lists the other nodes in slice order, where `list(cur_topo.nodes() - [node])` iterates a Python set; the pick stream is arbitrary, so the order of that list does not narrow what can be picked.
- networkx internals: graphs are values with the operations the core calls. The static generators (`static_tree`, `flat`, `clos`) are not part of this model.
- Floating point is modelled as exact reals, so rounding and overflow of floats are not modelled.
- Tod.TodToNs: does not model the ten-significant-digit rounding of `Decimal` arithmetic; the value is exact.
- Tod.ParseBin: rejects signs, surrounding whitespace, underscores and a `0b` prefix, which `int(s, 2)` accepts; a `binstr` never holds them.
- Shale.Root: models the float root `int(math.pow(n, 1/h))` as the exact integer root. Where the float falls just below an integer the source truncates wrongly: `int(math.pow(64, 1/3))` is 3, so `shale(64, 3)` fails the assertion at topo.py:205, while `ShaleOf` returns the 4×4×4 cube. Shale.ShaleFails's "not an h-th power" is stated over the exact root.
- The cocotb test bench around `tod_to_ns` and the experiment scripts under `exps/`: harness code, not the simulator's core.
- The dummy node -1 that round robin adds to an odd list: the schedule keeps it, but the algorithms require node ids in [0, n), so a schedule with the dummy self-loop is outside their precondition.
- `Simulator.__init__`'s call of `topo_func` and its `rng.choice` of failed links: the schedule and the failed links are constructor inputs.
- In-place sorting and aliasing of the caller's lists: sorts return new sequences.
- Sim.Simulator.Run: requires iter >= 0 or a sync interval >= 0. With both negative, iter · d is positive and the time falls each pass, so `run` never ends; a terminating method cannot state that.
- Sim.Simulator.constructor: requires at least one node. With nb_node = 0, `drift[0] = 0` in `gen_drift` (para.py:39) raises IndexError; a constructor cannot return an error.
- Sim.Simulator.constructor: requires a drift bound >= 0. A negative bound gives `rng.normal` a negative scale in `gen_normal_distribution` (para.py:30), which raises ValueError at construction.
- Sim.Simulator.constructor: requires a hop-error bound >= 0, and the algorithms require h >= 0. A negative bound makes `rng.normal` raise ValueError at the first hop-error draw in `get_hop_error` (para.py:10).
- Sim.Simulator.constructor: requires a schedule with a slice 0. An empty circuit list gives an empty schedule, and `self.topo[0]` (simulator.py:60) raises KeyError.
- Sim.Simulator.Run: states history lengths, the schedule and the faults, not the recorded values round by round; those are stated per pass by Step.
- Sim.Simulator.Tick: states only the schedule, the faults and the growth of the history; Step states the values.
- Sim.Simulator.SyncRound: for spanning tree, firefly and optimised firefly it states only the faults and the shape of the result; their rounds are stated by TreeSync.SpanningTree, Firefly.Firefly and Consensus.FireflyOptimized.
- Sim.Simulator.GetClockErrors: states the magnitudes entry-wise (equal to the value or its negation) rather than as a closed form.
