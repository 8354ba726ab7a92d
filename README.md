# IAC network in Dafny

This project models `IACNet` from `main.py`. It is an Interactive Activation and
Competition network. Named units are grouped into pools. Members of one pool
inhibit each other. Beside the real units there is a pool of hidden "hub" nodes,
one per member of the largest pool. Those hub nodes inhibit each other, and every
excitatory connection passes through one of them. A cycle computes every node's
net input from the rectified activations, adds the external input, and moves each
node towards `max` or `min` with the two update formulas.

The project has three modules:

- `Topology` (topology.dfy) is about values. It defines `list.index`, the
  largest pool and the anchor pool. It defines the weight matrix as a
  `seq<seq<real>>`, with the writes the constructor and `add_connection` make
  to it. It also gives the outcome of every lookup and assertion.
- `Dynamics` (dynamics.dfy) is about values too. It gives the update formulas,
  the rectified net input, one synchronous cycle, and runs of cycles.
- `Network` (network.dfy) is the class `IacNet`. `W` is an `array2<real>` and
  `a` is an `array<real>`, and both are updated in place by methods with
  loops. A ghost field `M` mirrors `W`. Each method's contract ties the new
  `M` and `a[..]` to the functions of the other two modules. `Valid()` keeps
  three invariants over every call: `W` agrees with `M`, `M` is symmetric,
  and `M` has a zero diagonal.

Python exceptions are modelled as an `Outcome` or a `Result` carrying an `Error`:

- `UnknownUnit`: `list.index` raises `ValueError`.
- `SelfConnection`: the assertion at main.py:36 fails.
- `SourceNotInLargestPool`: the assertion at main.py:47 fails.
- `EmptyInput`: for an empty input dictionary, `np.array([])` has a float type,
  and numpy refuses it as an index at main.py:59.

In `add_connections` an error ends the call, but the links made before it stay
in the matrix (`LinksBeforeFailure`).

A negative matrix index counts from the end. So the anchor member at position
`p` owns hub slot `N - 1 - p`, not `N - hubs + p` (`HubSlot`).

The order of the real units comes from `set` iteration in the source. The model
makes it a parameter: any arrangement of the pool members.

Three properties of the dynamics are proved:

- With every activation at or below zero and every input value zero, the
  activations stay where they are for any number of cycles and any decay
  (`QuietRun`).
- When rest is above zero, a network at rest is not at a fixed point, even
  with no decay. `RestAboveZeroDrifts` runs `input_and_cycle` on the pool
  `["x", "y"]` at rest 0.5, with the single input `y = 0.5` that holds `y` at
  rest. In the first cycle, `x` goes from 0.5 to 0.425.
- A node whose net input is exactly zero is left unchanged: no decay is applied
  to it.

## Model

| member | source | states |
|---|---|---|
| Topology.IndexOf | main.py:35 | the result is a position holding x, and no earlier position holds x (first occurrence) |
| Topology.MaxSize | main.py:6 | no pool is larger than the result, and some pool has exactly that size |
| Topology.AnchorIndex | main.py:13 | the anchor pool has the largest size, and every pool before it is strictly smaller (it is the first largest pool) |
| Topology.TotalSize | main.py:12 | the total counts every pool: no pool has more members than the total |
| Topology.Flatten | main.py:14 | the list of all pool members has TotalSize entries, one per member |
| Topology.FlattenHas | main.py:14 | every member of every pool is in the list of all members |
| Topology.NoUnitsWithoutLargest | main.py:6-12 | if the largest pool is empty, there are no units at all |
| Topology.Zeros | main.py:16 | an n x n matrix of zeros, which is symmetric with a zero diagonal |
| Topology.PyIndex | main.py:53 | any index Python accepts for length n (from -n to n - 1) names a position in [0, n): the index itself, or the index plus n when it is negative |
| Topology.HubSlot | main.py:48-53 | the slot for anchor position p lies in the trailing hub block and equals N - 1 - p |
| Topology.WithHubBlock | main.py:26-27 | entries in the trailing block become -1 off the diagonal and 0 on it; every other entry is unchanged; symmetry and zero diagonal are kept |
| Topology.SetPair | main.py:45 | W[i][j] and W[j][i] become w and every other entry is unchanged; symmetry is kept; zero diagonal is kept when i != j |
| Topology.Link | main.py:53-54 | the four entries i-h, h-i, h-j and j-h become w; entries outside row and column h are unchanged, and so is the rest of row and column h; symmetry and zero diagonal are kept |
| Topology.ConnectionOutcome | main.py:35-47 | succeeds exactly when both units are known, they differ, and either the link is direct or u is in the anchor pool; an unknown u is the reported error |
| Topology.Connected | main.py:42-54 | symmetry and zero diagonal are kept; a hub link leaves both the real-real block and the hub-hub block unchanged |
| Topology.ConnectedOverwrites | main.py:45-54 | connecting the same pair twice equals connecting it once with the second weight (writes overwrite, they do not add up) |
| Topology.SetPairOverwrites | main.py:45 | a second direct write of a pair replaces the first |
| Topology.LinkOverwrites | main.py:53-54 | a second hub link of a pair replaces the first |
| Topology.PairsDeclared | main.py:30-31 | every pair add_connections links was declared: its target is listed under its source's key |
| Topology.PairsHas | main.py:30-31 | every item listed under a key yields the pair (key, item) |
| Topology.ConnectAll | main.py:29-32 | add_connections keeps the matrix square and of the same size, and keeps symmetry and the zero diagonal |
| Topology.FirstFailure | main.py:29-47 | add_connections succeeds exactly when every pair passes add_connection's checks; otherwise it reports the error of the first pair that fails |
| Topology.ConnectAllOutcome | main.py:29-32 | the outcome of add_connections is FirstFailure: links made earlier do not change how it ends |
| Topology.ConnectAllKeepsBlocks | main.py:29-32 | any run of hub links leaves the real-real and hub-hub blocks unchanged |
| Topology.ConnectAllKeepsOnes | main.py:32 | an entry that is already 1 stays 1 through any run of hub links |
| Topology.ConnectAllLinks | main.py:29-32 | after a successful add_connections, for every declared pair (u, v), u is in the anchor pool and both u and v are joined to u's hub slot with weight 1 |
| Topology.FirstLinkKept | main.py:29-32 | the first pair's four hub entries are still 1 after the pairs that follow it |
| Topology.LaterLinkKept | main.py:29-32 | a later pair's hub entries are in place once the pairs after the first have been linked |
| Topology.ConnectAllAppend | main.py:29-32 | a successful run over some pairs, followed by a run over more pairs from where it ended, equals the run over all the pairs |
| Topology.ConnectAllFailsAt | main.py:29-47 | when every pair before pair f passes and pair f fails, the outcome is pair f's error and the matrix is the one the earlier pairs build, in a run that succeeds |
| Topology.LinksBeforeFailure | main.py:29-32 | when add_connections fails at pair f, every pair before f is joined through its source's hub slot with weight 1: links made before the error stay |
| Topology.ConnectAllUntouched | main.py:29-32 | an entry that no passing pair writes keeps its weight through add_connections |
| Topology.ConnectAllHubEntries | main.py:29-54 | starting with no real-hub weights, as after construction, a successful add_connections leaves each real-hub entry at 1 when some declared pair writes it and at 0 otherwise, in both directions |
| Topology.InitialWeights | main.py:16-27 | the initial matrix is N x N, symmetric, with a zero diagonal; the hub block is -(ones - identity); there are no real-hub weights |
| Topology.PoolMembersInhibit | main.py:20-23 | two distinct members of one pool have weight -1 between them in both directions |
| Topology.OtherPoolsUnconnected | main.py:16-23 | units that share no pool have weight 0 between them |
| Dynamics.GtUpdate | main.py:74-75 | with positive net input, an activation below max and at or below rest, and decay >= 0, the change is positive; at max and at or above rest it is not positive |
| Dynamics.LtUpdate | main.py:77-78 | with negative net input, an activation above min and at or above rest, and decay >= 0, the change is negative; at min and at or below rest it is not negative |
| Dynamics.Step | main.py:71-72 | zero net input leaves the node unchanged; positive net input raises it and negative net input lowers it, under the conditions above |
| Dynamics.Relu | main.py:64 | the output is non-negative and is either the activation or 0 |
| Dynamics.Rectified | main.py:64 | every output is non-negative and at least the activation; a positive activation is its own output |
| Dynamics.DotZero | main.py:64 | a zero output vector contributes no net input, whatever the weights |
| Dynamics.DotNoOverlap | main.py:64 | when every entry-wise product is zero, the row contributes no net input |
| Dynamics.DotSingle | main.py:64 | when only the product at j is non-zero, a row of W @ out is exactly that one weight times that one output |
| Dynamics.ExternalInput | main.py:67 | a node without an input receives 0; with distinct keys, the node of the t-th key receives the t-th value |
| Dynamics.ExternalInputSnoc | main.py:67 | one more input adds its value to the net input of its own node and of no other |
| Dynamics.Inject | main.py:59 | every input node takes its input value, and every other node keeps its activation |
| Dynamics.InjectSnoc | main.py:59 | one more input overwrites exactly one more node |
| Dynamics.Net | main.py:64-67 | one net input per node: row x of W times the rectified activations, plus the external input of node x |
| Dynamics.NetWithoutOutput | main.py:64-67 | when no activation is positive, each node's net input is its external input alone, whatever the weights |
| Dynamics.Cycle | main.py:64-72 | one new activation per node, each from the net input of the activations at the start of the cycle; CycleMoves states which way each node moves |
| Dynamics.CycleMoves | main.py:64-72 | zero net input leaves a node as it is; positive net input raises a node below max and at or below rest; negative net input lowers a node above min and at or above rest (for decay >= 0) |
| Dynamics.Run | main.py:61 | zero cycles, or a negative count, leave the activations as they are |
| Dynamics.QuietCycle | main.py:61-72 | with no positive activation and all inputs zero, a cycle changes nothing, whatever the decay |
| Dynamics.QuietRun | main.py:61-72 | the same holds for any number of cycles |
| Dynamics.RunShift | main.py:61 | n + 1 cycles equal n cycles started after one cycle |
| Dynamics.RestAboveZeroDrifts | main.py:56-78 | with rest 0.5 and decay 0, in the pool x, y at rest, the single input y = 0.5 leaves x at 0.425 after one cycle, not at rest |
| Network.IacNet.constructor | main.py:4-27 | N is the total pool size plus the largest pool size; the anchor is the first largest pool; W equals InitialWeights; every activation equals rest |
| Network.IacNet.Wire | main.py:19-27 | starting from all zeros, the pool inhibitions and then the hub block give exactly InitialWeights |
| Network.IacNet.InhibitPools | main.py:20-23 | after the loop over the pools, two real units are joined with -1 exactly when they are distinct and share a pool; every other entry is 0 |
| Network.IacNet.BuiltWeights | main.py:19-27 | the pool weights with the hub block written over them are InitialWeights |
| Network.IacNet.AnchorInNodes | main.py:13-14 | the anchor pool's members are real units; the real units have no repeats and number as many as all pool members |
| Network.IacNet.InhibitPool | main.py:20-23 | every pair of distinct pool members gets weight -1 and every other entry is unchanged |
| Network.IacNet.InhibitHub | main.py:26-27 | the trailing hub block becomes -(ones - identity) and every other entry is unchanged |
| Network.IacNet.AddConnection | main.py:34-54 | the outcome is ConnectionOutcome; on success the new W is Connected(old W); on failure W is unchanged; Valid is kept |
| Network.IacNet.WritePair | main.py:45 | W becomes SetPair(old W, i, j, w), and W still mirrors M |
| Network.IacNet.AddConnections | main.py:29-32 | the new W and the outcome are those of ConnectAll over the pairs in dictionary order |
| Network.IacNet.InputIndices | main.py:57 | the result is ResolveInputs; each index names its input unit |
| Network.IacNet.SetInputs | main.py:59 | the activations become Inject(old activations, inputs) |
| Network.IacNet.NetInput | main.py:64-67 | the computed vector is Net(W, a, inputs): W times the rectified activations, plus the external input |
| Network.IacNet.RowInput | main.py:64 | the sum over row x is Dot(row x of W, relu(a)) |
| Network.AddExternal | main.py:67 | each node's net input grows by its external input and by nothing else |
| Network.IacNet.CycleOnce | main.py:64-72 | the two masked updates give Cycle(old a): positive and negative net inputs are taken from one net vector (a synchronous update) |
| Network.IacNet.RunCycles | main.py:61-72 | the activations become Run(old a, numCycles) |
| Network.IacNet.InputAndCycle | main.py:56-72 | the outcome is InputOutcome; on failure the activations are unchanged; on success they are Run over the injected activations; W is never modified |
| Network.IacNet.ResolvedDistinct | main.py:57 | distinct input units resolve to distinct node indices |
| Network.ResolveInputs | main.py:57 | succeeds exactly when every input unit is known, with one index per unit; a failure names an input unit that is not a node |
| Network.InputOutcome | main.py:57-59 | succeeds exactly when there is at least one input and every input unit is known |

## Left out

- The demo at main.py:80-99, which builds a network, runs it and prints the result, is not modelled. Printing is I/O.
- Floating point is not modelled. Weights and activations are exact reals, so rounding in numpy is not captured.
- The order of `set` iteration at main.py:14 is not modelled. The node order is a constructor parameter that may be any arrangement of the pool members.
- Network.IacNet.constructor: requires that no unit appears twice across the pools. Repeated units (which the source collapses through `set`) are not modelled.
- Network.IacNet.constructor: requires at least one pool. `max([])` raises, and that path is not modelled as an outcome.
- Dictionaries are modelled as sequences of pairs in insertion order. Keys are distinct by precondition (`DistinctKeys`) for inputs, and are taken as given for connections.
- Numpy's shapes (the `(N, 1)` activation column), broadcasting and boolean masks are not modelled. The activations are a flat array, and the masks are loops that test the sign of the net input.
- Convergence or stability of the dynamics over many cycles is not claimed. Only the fixed-point facts above are proved.
- Arguments of other types (non-integer cycle counts, non-numeric weights) are not modelled.
