# Co-occurrence networks of people in letters and diary entries

This project models the core of a small pipeline that turns historical
documents into a network of people. Two variants share the pipeline:

- The diary-entry variant reads John Quincy Adams diary entries
  (`jqa-network.py`; `network-creation.py` shares its stages up to the
  naming step). Each
  entry lists the people it mentions.
- The correspondence variant reads letters (`cms-network.py`). Each letter
  has a sender, a recipient and a list of people it refers to.

Both variants run the same five stages:

1. **Relation expansion.** A multi-valued person cell is split on `,` or
   `;`, and each piece becomes its own row. The diary variant strips the
   pieces and drops rows with an empty or missing cell. The
   correspondence variant lower-cases the people but does not strip them.
2. **Co-occurrence matrix.** A document-by-person count table `C` is built
   and multiplied out as `Cᵀ·C`.
   - The diary variant drops the sentinel people `u` and `source` first,
     then zeroes the diagonal.
   - The correspondence variant adds reference, sender and recipient
     counts per file, and keeps the diagonal.
3. **Edge filter.** The matrix is melted into `(source, target, weight)`
   rows. A row is kept when its endpoints differ and its weight is
   strictly above 15 (diary) or 3 (correspondence). The correspondence
   variant also drops the `u` and empty endpoints.
4. **Graph construction** (`createGraphObject`). This stage builds:
   - an undirected simple graph from the rows, plus the extra node
     `source` described below;
   - the degree of each node;
   - the connected components in `networkx` enumeration order, and the
     largest one (the first wins on ties);
   - the diameter of the largest component;
   - the community label of each node;
   - the node-link data of the largest component.
5. **Input and naming.** `grabFiles` chooses the XML documents to read.
   `networkAddNames` names the output nodes from a cache, and asks a names
   service on a cache miss.

The model is functional throughout. Tables are sequences of immutable
records. The matrix is a map from ordered label pairs to a `Value`
(`Num` or `NaN`). Graphs are a node sequence plus a link sequence. Every
operation is a pure function, and lemmas relate them to independent
reference definitions.

Modules, one per file:

- `Wrappers`: `Option` and `Result`.
- `Seqs`: first-seen deduplication, filtering and counting.
- `Text`: `str.strip`, the split on `,|;`, `str.lower` and `str.endswith`.
- `Order`: Python's string order, and the sorted labels of a crosstab.
- `CoMatrix`: the matrix, the melt and the threshold filter.
- `JqaExpand` and `JqaMatrix`: the diary variant.
- `CmsFrame` and `CmsMatrix`: the correspondence variant.
- `Graph`, `Components`, `Subgraph`, `Distance` and `Network`: graph
  construction and `createGraphObject`.
- `Names`: `grabFiles` and `networkAddNames`.

Behaviour of the code that the model keeps on purpose:

- **The extra `source` node.** `createGraphObject` wraps the node list in a
  `DataFrame` with the single column `source`, then calls
  `G.add_nodes_from` on it (scripts/network_helper_utils.py:13-15).
  Iterating a `DataFrame` yields its column labels. So the only node
  added is the string `source`, which is isolated unless a person is
  literally named `source`. `Graph.CreateGraph` adds exactly this node, and
  `Network.SourceNodeIsolated` proves it is isolated.
- **The `source` column of the correspondence matrix.** `refs['source'] =
  refs.index` (cms-network.py:67) overwrites the column of a person named
  `source`, if there is one. The melt then uses that column as the id
  column. So edges never have target `source`, and the mirror property
  holds only when no person is named `source`.
- **Dropped and poisoned files.** Assigning the sender and recipient counts
  into the reference table aligns them on that table's files
  (cms-network.py:47-58). So only files with at least one reference count.
  When such a file has no sender (or no recipient) at all, the merged
  column of every sender (or recipient) holds a NaN there. The product
  then spreads that NaN over the person's whole row and column, and a NaN
  weight never passes `> 3`. This is modelled by `CmsMatrix.Poisoned`.

### Where the code departs from what one might expect

The model follows the code in each case:

- **Weights are counts, not 0/1.** One might expect the matrix to be a
  product of 0/1 incidence matrices. The code multiplies
  `pd.crosstab` counts, so a person named twice in one entry counts twice
  (`JqaMatrix.CountFromRecords`, `JqaMatrix.MatrixCountsPairs`,
  `CmsMatrix.CombinedPerLetter`).
- **The correspondence diagonal is not zeroed.** A co-occurrence matrix
  with a zero diagonal might be expected. The zeroing is commented out in
  cms-network.py:63-64 (`CmsMatrix.DiagonalKept`).
- **Each variant normalises only half the way.** One might expect every
  identifier to be lower-cased and stripped. The diary variant strips
  but does not lower-case. The correspondence variant lower-cases but
  does not strip, and keeps empty pieces until the edge filter removes
  the empty endpoint.
- **Empty pieces are dropped, not kept.** One might expect
  `max(1, list length)` rows per record. In the diary variant, a piece
  that strips to nothing is dropped. In the correspondence variant, a NaN
  reference list yields no counted row.
- **There is never an empty component.** One might expect a "no
  component" marker when no edge survives. In the code the graph always
  holds the node `source`. With no edges the largest component is
  `{source}`, and its diameter is 0 (`Distance.DiameterSingleton`).
- **A missing name is an error, not a fallback.** A non-empty answer from
  the names service that lacks the node's id raises a `KeyError`. It is
  modelled as the error `MissingEntry`, not as a fallback to the id.

## Model

| member | source | states |
|---|---|---|
| Text.Strip | jqa-network.py:28 | `str.strip()`: the result has no whitespace at either end and is no longer than the input; `Text.StripSlice` adds that it is the input with only whitespace cut off |
| Text.StripSlice | jqa-network.py:28 | the stripped value is one contiguous slice of the input, and everything cut off on either side is whitespace |
| Text.StripIdempotent | jqa-network.py:28 | stripping a stripped value changes nothing |
| Text.StripEmptyIffAllSpace | jqa-network.py:28-32 | a piece strips to the empty string (and so is dropped) exactly when it is all whitespace |
| Text.StripNoDelim | jqa-network.py:24-28 | stripping a piece without `,` or `;` cannot introduce one |
| Text.Split | jqa-network.py:24 | the split yields one more piece than there are delimiters, and no piece holds a delimiter |
| Text.SplitRoundTrip | jqa-network.py:24 | joining the pieces with the original delimiters gives back the input, so the split loses nothing |
| Text.SplitNoDelim | jqa-network.py:24 | a value without delimiters splits into itself alone |
| Text.Lower | cms-network.py:26-28 | lower-casing keeps the length, leaves no upper-case letter, keeps every other character, and shifts each upper-case letter by 32 |
| Text.SplitLower | cms-network.py:28-31 | lower-casing before splitting gives the same pieces as lower-casing each piece after splitting |
| Seqs.Dedup | scripts/network_helper_utils.py:13 | the deduplicated list has no repeats and the same members as the input |
| Seqs.DedupFirstSeen | scripts/network_helper_utils.py:13 | the deduplicated list orders the elements by their first occurrence in the input |
| Seqs.FlatMap | jqa-network.py:25 | an exploded row comes from one of the input rows, every row's expansion is in the output, and each value occurs as often as in all the expansions together |
| Seqs.FlatMapConcat | jqa-network.py:25 | exploding a concatenation gives the explosions of the two parts, in order, so every block keeps its input row's place |
| Seqs.FilterMap | jqa-network.py:25-32 | the output has one element per input satisfying the condition, holds exactly the images of those inputs, and each image occurs once for every such input mapping to it |
| Seqs.FilterMapConcat | jqa-network.py:25-32 | filtering and mapping a concatenation handles the two parts in order |
| Seqs.Filter | jqa-network.py:37 | a query keeps exactly the rows satisfying its condition, and never adds rows |
| Seqs.FilterConcat | jqa-network.py:37 | querying a concatenation is the concatenation of the queries |
| Seqs.FilterDistinct | cms-network.py:47-58 | querying a duplicate-free list keeps it duplicate-free |
| Seqs.CountIfConcat | cms-network.py:40 | counting over a concatenation adds the counts of its parts |
| Seqs.DistinctConcat | cms-network.py:47-58 | two duplicate-free, disjoint lists concatenate to a duplicate-free list |
| Order.LessEqTotal | jqa-network.py:41 | any two strings are comparable |
| Order.LessEqAntisymmetric | jqa-network.py:41 | two strings that are each at most the other are equal |
| Order.LessEqTransitive | jqa-network.py:41 | the string order is transitive |
| Order.Insert | jqa-network.py:41 | inserting into a strictly increasing list keeps it strictly increasing and adds exactly the new label |
| Order.Sorted | jqa-network.py:41 | the crosstab's labels are strictly increasing and are exactly the distinct values of the column |
| CoMatrix.Tabulate | jqa-network.py:41-44 | the matrix has a cell for exactly each ordered pair of its distinct labels, holding the given weight |
| CoMatrix.Column | jqa-network.py:54 | one melted column lists every label as source, in label order, with that cell's weight |
| CoMatrix.Melt | jqa-network.py:54 | the melt has one row per (value column, label) pair, and a row is in it exactly when it is a cell of the matrix under a value column |
| CoMatrix.Threshold | jqa-network.py:55 | an edge survives exactly when its row was melted and it has distinct endpoints, neither excluded, and a numeric weight above the minimum |
| CoMatrix.EdgesMirror | jqa-network.py:54-55 | with a symmetric matrix, `(a, b, w)` survives the filter exactly when `(b, a, w)` does |
| JqaExpand.Explode | jqa-network.py:24-28 | one row per piece that does not strip to empty, carrying the stripped piece and the record's other columns; a row occurs once for every piece that strips to its person, so a repeated piece gives repeated rows |
| JqaExpand.ExpandRecord | jqa-network.py:24-32 | every surviving row is non-empty, stripped and free of `,` and `;`; a record with a missing or empty cell yields nothing; a complete record yields one row per kept piece, each row as often as pieces strip to its person |
| JqaExpand.ExplodeMember | jqa-network.py:24-28 | a row comes from the pieces exactly when it carries the entry, the other columns and the stripped form of a kept piece |
| JqaExpand.ExpandRecordPieces | jqa-network.py:24-32 | a complete record expands to exactly the rows carrying its entry, its other columns unchanged, and the stripped form of a non-empty piece of its `people` cell |
| JqaExpand.CreateDataframe | jqa-network.py:17-33 | the table holds exactly the rows some record expands to, every row is clean, and each row occurs once per piece of each complete record that yields it |
| JqaMatrix.DropSentinels | jqa-network.py:37 | a row survives exactly when its person is neither `u` nor `source` |
| JqaMatrix.Entries | jqa-network.py:41 | the crosstab's row index lists every entry of the table, each once, and nothing that is not some row's entry |
| JqaMatrix.People | jqa-network.py:41 | the crosstab's columns are the distinct people of the table, strictly increasing |
| JqaMatrix.ProductSymmetric | jqa-network.py:44 | `Cᵀ·C` has the same value at `(a, b)` and `(b, a)` |
| JqaMatrix.PairsFromIsProduct | jqa-network.py:41-44 | summing `C[e][a]·C[e][b]` over the distinct entries equals the number of ordered row pairs sharing an entry and naming `a` and `b` |
| JqaMatrix.MatrixOf | jqa-network.py:41-47 | the matrix is symmetric, is labelled by the table's people, has a zero diagonal, and holds the entry-wise product off the diagonal |
| JqaMatrix.CooccurrenceMatrix | jqa-network.py:37-47 | the matrix is symmetric, has a zero diagonal, and is labelled by exactly the non-sentinel people of the table |
| JqaMatrix.CountExplode | jqa-network.py:24-41 | the crosstab cell of an entry and a person, over one record's exploded rows, is the number of its pieces that strip to that person |
| JqaMatrix.CountFromRecords | jqa-network.py:17-41 | the crosstab cell of entry `e` and person `p` counts every piece, over all complete records with entry `e`, that strips to `p`: a person named twice in one entry counts twice |
| JqaMatrix.MatrixCountsPairs | jqa-network.py:37-44 | every off-diagonal weight is the number of pairs of non-sentinel rows that share an entry and name the two people |
| JqaMatrix.CreateAdjMatrix | jqa-network.py:35-57 | every output row has two different, non-sentinel people and a weight above 15 |
| JqaMatrix.EdgesExactly | jqa-network.py:52-55 | `(a, b, w)` is output exactly when `a` and `b` are distinct non-sentinel people of the table, `w` is their pair count, and `w > 15` |
| JqaMatrix.EdgesMirrored | jqa-network.py:44-55 | `(a, b, w)` is output exactly when `(b, a, w)` is |
| JqaMatrix.DropSentinelRow | jqa-network.py:37 | removing the sentinels from a table with one sentinel row inserted anywhere gives the same rows as without it |
| JqaMatrix.SentinelRowIgnored | jqa-network.py:37 | a row naming `u` or `source`, inserted anywhere, leaves the edge list unchanged |
| CmsFrame.LowerCell | cms-network.py:26-27 | lower-casing keeps NaN as NaN, keeps the length, and leaves no upper-case letter |
| CmsFrame.SplitOfLowerIsLower | cms-network.py:28-31 | every piece of a lower-cased reference list is lower-case |
| CmsFrame.Prepare | cms-network.py:22-33 | sender and recipient are lower-cased; the references, lower-cased, split into pieces with no delimiter and no upper-case letter that rejoin to the whole lower-cased cell, so nothing is stripped |
| CmsFrame.CreateDataframe | cms-network.py:22-33 | one row per letter, in order, keeping the file; sender and recipient are lower-cased (NaN stays NaN); a reference list is present exactly when the cell was, and its pieces rejoin with the delimiters to the whole lower-cased cell |
| CmsMatrix.RefsOf | cms-network.py:37 | a letter's reference list explodes into one row per element, in order; a NaN list gives no counted row |
| CmsMatrix.Explode | cms-network.py:37 | the exploded table holds exactly the rows of the letters' reference lists |
| CmsMatrix.ExplodeLength | cms-network.py:37 | the exploded table has as many rows as all the reference lists together |
| CmsMatrix.RefFiles | cms-network.py:40-51 | the reference table's files, each once, are exactly the files of letters with at least one reference |
| CmsMatrix.RefPeople | cms-network.py:40 | the reference table's columns are the distinct referenced people, strictly increasing |
| CmsMatrix.ColumnPeople | cms-network.py:43-44 | the sender and recipient crosstab columns are the distinct non-NaN values, strictly increasing |
| CmsMatrix.Sources | cms-network.py:43 | the sender column holds exactly the letters' senders |
| CmsMatrix.Targets | cms-network.py:44 | the recipient column holds exactly the letters' recipients |
| CmsMatrix.Labels | cms-network.py:47-58 | the merged columns are distinct and are exactly the people referenced, sending or receiving |
| CmsMatrix.FileProductSymmetric | cms-network.py:61 | `Cᵀ·C` over the files has the same value at `(a, b)` and `(b, a)` |
| CmsMatrix.FileProductDiagonal | cms-network.py:61-64 | a diagonal entry is positive as soon as the person occurs in one of the files |
| CmsMatrix.FileProductNonNegative | cms-network.py:61 | a diagonal entry is a sum of squares and never negative |
| CmsMatrix.MatrixOf | cms-network.py:61-64 | the product matrix is symmetric, is labelled by the merged columns, and holds the merged weight (or NaN) in every cell |
| CmsMatrix.ValueColumns | cms-network.py:67-71 | every column but `source` is melted as a target |
| CmsMatrix.CreateAdjMatrix | cms-network.py:35-81 | every output row has two different endpoints, neither `u` nor empty, a target other than `source`, and a weight above 3 |
| CmsMatrix.EdgesExactly | cms-network.py:71-79 | `(a, b, w)` is output exactly when `a` and `b` are distinct merged columns, neither `u` nor empty, `b` is not `source`, and the cell is the number `w > 3` |
| CmsMatrix.EdgesMirrored | cms-network.py:61-74 | with no person named `source`, `(a, b, w)` is output exactly when `(b, a, w)` is |
| CmsMatrix.DiagonalKept | cms-network.py:63-64 | the diagonal is not zeroed: a person without NaN who occurs in a counted file has a positive diagonal cell |
| CmsMatrix.CombinedPerLetter | cms-network.py:40-58 | the merged count of a person in a file is the sum, letter by letter, of its reference occurrences plus one as sender plus one as recipient |
| Graph.AddNode | scripts/network_helper_utils.py:15 | adding a node keeps the node list duplicate-free and adds exactly that node |
| Graph.LinkIndex | scripts/network_helper_utils.py:10 | the lookup finds a link joining the pair in either direction, or reports that none does |
| Graph.LinkIndexUnique | scripts/network_helper_utils.py:10 | in a simple graph the link joining a pair is the one found |
| Graph.AddEdge | scripts/network_helper_utils.py:10 | adding a row keeps the graph simple and valid, and adds exactly its two endpoints as nodes |
| Graph.AddEdgeWeight | scripts/network_helper_utils.py:10 | adding a row sets the weight of its unordered pair and leaves every other pair's weight unchanged |
| Graph.FromEdgelist | scripts/network_helper_utils.py:10 | the graph `nx.from_pandas_edgelist` builds is valid: its nodes are distinct, every link's endpoints are nodes, and no pair is linked twice; `Graph.EdgelistWeights` states which pairs are linked and with what weight |
| Graph.EdgelistWeights | scripts/network_helper_utils.py:10 | two nodes are linked exactly when some row names them in either order, with the weight of the last such row, so mirrored rows collapse into one edge |
| Graph.EndpointsMembers | scripts/network_helper_utils.py:10 | the endpoint list holds exactly the sources and targets of the rows |
| Graph.EdgelistNodeOrder | scripts/network_helper_utils.py:10-13 | the nodes are the rows' endpoints in order of first appearance |
| Graph.EdgelistNodes | scripts/network_helper_utils.py:10 | a node is in the edge-list graph exactly when some row has it as an endpoint |
| Graph.CreateGraph | scripts/network_helper_utils.py:10-15 | the graph is valid, its links are those of the edge list, and its nodes are the rows' endpoints plus the extra node `source` |
| Graph.DegreeSumStep | scripts/network_helper_utils.py:20 | one more link raises the degree sum by the number of its endpoints among the nodes |
| Graph.Handshake | scripts/network_helper_utils.py:20 | the degrees of a valid graph's nodes add up to twice its number of links |
| Components.Expand | scripts/network_helper_utils.py:44 | one breadth-first layer only ever adds nodes |
| Components.NeighboursFrom | scripts/network_helper_utils.py:44 | every new neighbour is adjacent to a member of the set |
| Components.Closure | scripts/network_helper_utils.py:44 | the closure contains the start set, stays within the graph, and is closed under adjacency |
| Components.ClosureLeast | scripts/network_helper_utils.py:44 | the closure lies inside every closed superset of the start set |
| Components.ClosureSound | scripts/network_helper_utils.py:44 | every node of the closure of a reachable set is reachable |
| Components.Component | scripts/network_helper_utils.py:44 | a node's component contains the node and stays within the graph |
| Components.ComponentIsReachable | scripts/network_helper_utils.py:44 | a node's component holds exactly the nodes reachable from it by a walk |
| Components.ReachableSymmetric | scripts/network_helper_utils.py:44 | reachability is symmetric in an undirected graph |
| Components.ReachableTransitive | scripts/network_helper_utils.py:44 | reachability is transitive |
| Components.SameComponent | scripts/network_helper_utils.py:44 | every member of a component names the same component |
| Components.ComponentSymmetric | scripts/network_helper_utils.py:44 | `z` is in the component of `x` exactly when `x` is in the component of `z` |
| Components.RootsCover | scripts/network_helper_utils.py:44 | every scanned node lies in the component of some root |
| Components.RootsApart | scripts/network_helper_utils.py:44 | no later root is reachable from an earlier one |
| Components.ConnectedComponents | scripts/network_helper_utils.py:44 | the components are enumerated one per root, in node order |
| Components.ComponentsPartition | scripts/network_helper_utils.py:44 | each enumerated component holds exactly the nodes reachable from any of its members |
| Components.ComponentsCover | scripts/network_helper_utils.py:44 | every node lies in some enumerated component |
| Components.ComponentsExist | scripts/network_helper_utils.py:44 | a graph with nodes has at least one component |
| Components.ComponentsDisjoint | scripts/network_helper_utils.py:44 | two different enumerated components share no node |
| Components.LargestIndex | scripts/network_helper_utils.py:45 | the chosen index has maximal size, and every earlier component is strictly smaller |
| Components.ConnectedIffReachable | scripts/network_helper_utils.py:35 | the graph is connected exactly when every node reaches every other |
| Subgraph.ComponentClosed | scripts/network_helper_utils.py:48 | no link leaves a component |
| Subgraph.InducedLinks | scripts/network_helper_utils.py:48 | the subgraph keeps exactly the links with both endpoints in the chosen set |
| Subgraph.InducedSimple | scripts/network_helper_utils.py:48 | the subgraph of a simple graph is simple |
| Subgraph.Induced | scripts/network_helper_utils.py:48 | the subgraph is valid, keeps the chosen nodes of the graph and the links between them |
| Subgraph.InducedDegree | scripts/network_helper_utils.py:20-48 | on a set closed under adjacency, each node has the same degree in the subgraph as in the graph |
| Subgraph.InducedWalk | scripts/network_helper_utils.py:48 | a walk starting inside a closed set is a walk of its subgraph |
| Subgraph.InducedConnected | scripts/network_helper_utils.py:48 | any two nodes of a component reach each other inside its subgraph |
| Distance.BallMonotone | scripts/network_helper_utils.py:49 | breadth-first balls only grow with the radius |
| Distance.BallHasWalk | scripts/network_helper_utils.py:49 | every node within radius `k` is the end of a walk of at most `k` links |
| Distance.WalkInBall | scripts/network_helper_utils.py:49 | the end of a walk of at most `k` links lies within radius `k` |
| Distance.BallStable | scripts/network_helper_utils.py:49 | once a layer adds nothing, the ball holds the whole component |
| Distance.BallShrinks | scripts/network_helper_utils.py:49 | while the layers grow, fewer nodes stay outside the ball |
| Distance.DistFrom | scripts/network_helper_utils.py:49 | the search stops at the first radius from `k` on whose ball holds the target |
| Distance.Dist | scripts/network_helper_utils.py:49 | the distance is the first radius whose ball holds the target |
| Distance.DistIsShortest | scripts/network_helper_utils.py:49 | some walk has exactly the distance's length and no shorter walk exists |
| Distance.Eccentricity | scripts/network_helper_utils.py:49 | the eccentricity bounds every distance from the node and is attained by one target |
| Distance.Diameter | scripts/network_helper_utils.py:49 | the diameter bounds every eccentricity and is attained by one node |
| Distance.DiameterIsMaxDistance | scripts/network_helper_utils.py:49 | the diameter is the greatest shortest-path length over all node pairs |
| Distance.DiameterSingleton | scripts/network_helper_utils.py:49 | a one-node component has diameter 0 |
| Network.Modularity | scripts/network_helper_utils.py:69-72 | a node's label is the index of the last community holding it, and there is no label when none holds it |
| Network.ModularityOfPartition | scripts/network_helper_utils.py:69-72 | with pairwise disjoint communities, a node gets exactly the index of its own community |
| Network.Largest | scripts/network_helper_utils.py:44-45 | the chosen set is the component of one of the graph's nodes |
| Network.LargestIsMaximal | scripts/network_helper_utils.py:45 | no component is larger than the chosen one |
| Network.LargestIsFirst | scripts/network_helper_utils.py:45 | every component enumerated before the chosen one is strictly smaller |
| Network.Built | scripts/network_helper_utils.py:10-15 | the graph is valid and always holds the node `source` |
| Network.Records | scripts/network_helper_utils.py:20-75 | one node record per id, in the same order, each carrying its id, its degree over the given links (the `degree` attribute set at line 20) and the index of its community (the `modularity` attribute set at line 75) |
| Network.ObjectOf | scripts/network_helper_utils.py:48-76 | the output has exactly the largest component's nodes, each once, with its degree and label; up to orientation, its links are exactly the graph's links inside the component, with their weights, and no pair is linked twice |
| Network.InducedHasLinks | scripts/network_helper_utils.py:48 | up to orientation, the subgraph's links are exactly the links with both endpoints inside the node set |
| Network.CreateGraphObject | scripts/network_helper_utils.py:8-77 | the output lists every node of the largest component of the rows' graph exactly once and no other node; every output node is an endpoint of a row or the extra node `source`, and every output link joins a pair some row names, in either order, with the weight of the last such row |
| Network.LinkWeightFromRows | scripts/network_helper_utils.py:10 | a link of the edge list, whichever way round it is written, carries the weight of the last row naming its pair |
| Network.DegreeInComponent | scripts/network_helper_utils.py:20-48 | a node's degree, set on the whole graph, equals its degree in the output |
| Network.OutputHandshake | scripts/network_helper_utils.py:20-76 | the output nodes' degrees add up to twice the number of output links |
| Network.CommunityLabels | scripts/network_helper_utils.py:65-75 | with disjoint communities, each output node is labelled with exactly its own community's index |
| Network.ComponentDiameter | scripts/network_helper_utils.py:48-49 | the reported diameter bounds the distance between any two nodes of the output component, and some pair of its nodes is exactly that far apart |
| Network.SourceNodeIsolated | scripts/network_helper_utils.py:13-15 | unless a row names `source`, the extra node `source` has degree 0 and is a component of its own |
| Names.Head | scripts/read_write_helper_utils.py:13 | a Python slice `[:length]` is a prefix of length `min(length, n)`, or drops the last `-length` elements for a negative length |
| Names.GrabFiles | scripts/read_write_helper_utils.py:5-13 | every returned path ends in `.xml`, the result is a prefix of the XML paths in walk order, and for `length >= 0` it has `min(length, #xml)` paths |
| Names.GrabFilesAll | scripts/read_write_helper_utils.py:5-13 | asking for at least as many files as there are returns exactly the XML paths of the walk |
| Names.NameNode | scripts/read_write_helper_utils.py:33-51 | one node is named unless the request fails or a non-empty answer lacks its id; the id and other fields are kept; no cached entry changes; the service is asked only on a miss |
| Names.AddNames | scripts/read_write_helper_utils.py:20-54 | on success, every node gets a name and keeps its id and other fields; cached entries are never overwritten; new entries come only from the ids requested; only missing ids that the service answers are requested |
| Names.AddNamesSucceeds | scripts/read_write_helper_utils.py:37-47 | the run succeeds exactly when the service answers usefully for every node id missing from the loaded cache |
| Names.CacheHit | scripts/read_write_helper_utils.py:33-34 | a node whose id is in the loaded cache gets the cached `given_name family_name` |
| Names.AllCached | scripts/read_write_helper_utils.py:30-34 | when every id is cached, the outcome does not depend on the service, nothing is requested, and the cache is unchanged |
| Names.MissFilled | scripts/read_write_helper_utils.py:43-47 | a missing id that gets a non-empty answer is named from that answer, and the answer's entry enters the cache |
| Names.MissEmpty | scripts/read_write_helper_utils.py:48-51 | a missing id that gets an empty answer is named by its id and never enters the cache |
| Names.NeverCached | scripts/read_write_helper_utils.py:44-51 | an id missing from the cache whose answer is empty stays out of the cache |
| Names.NameFromCacheOrId | scripts/read_write_helper_utils.py:30-51 | every name is either the node's id or the full name of its entry in the cache written back |

`network-creation.py` shares the diary variant's stages up to the naming
step. Its `grabFiles` (network-creation.py:17-25) is the same code as
scripts/read_write_helper_utils.py:5-13, its
`createDataframe` (network-creation.py:27-43) and `createAdjMatrix`
(network-creation.py:45-67) are the same code as jqa-network.py:17-57, and
its `createGraphObject` (network-creation.py:69-138) is the same code as
scripts/network_helper_utils.py:8-77. One model covers both, and the rows
above cite the first copy. Its naming step is the older `addNames`, which
is left out (see below).

## Left out

- XML parsing: `build_dataframe` is not part of this model. Its records
  are the inputs `JqaExpand.Record` and `CmsFrame.Letter`.
- File-system walking: the paths `os.walk` yields, in walk order, are the
  input of `Names.GrabFiles`.
- Process plumbing: `argparse`, `print` diagnostics (including the top-10
  degree listing), `time`, `save` and `json.dump` are not modelled.
- The cache file: reading and writing `data/idtoname.json` is left out.
  The loaded cache is a parameter, and the cache written back is part of
  the result.
- The HTTP request: the names service is a deterministic function
  parameter. A raised `RequestException` (the `SystemExit` path) is the
  error result `RequestFailed`.
- The older `addNames` of network-creation.py:140-168, which
  network-creation.py:201 calls in place of `networkAddNames`. It is an
  earlier variant of the naming stage and is not modelled. It differs from
  `Names.AddNames` in two ways: an empty answer from the names service
  raises a `KeyError` instead of falling back to the id
  (network-creation.py:163), and the cache file is rewritten after every
  request instead of once after the loop (network-creation.py:167-168).
- Floating-point measures: density, transitivity, betweenness,
  eigenvector and degree centrality are not modelled.
- Community detection: the internals of `greedy_modularity_communities`
  (float modularity gains) are left out. The communities are a parameter
  of `Network.CreateGraphObject`.
- Output order: a `networkx` subgraph view iterates the graph's nodes in
  the graph's order when the node set is at least half the graph, and in
  the set's iteration order otherwise. The model always uses the graph's
  node order, and states the node-link nodes by membership.
- Network.ObjectOf: the orientation of each output link is not promised.
  `node_link_data` writes each edge starting from whichever endpoint the
  subgraph's node iteration meets first, which depends on that set order.
  The model keeps the orientation of the first row naming the pair. So the
  contracts of `Network.ObjectOf` and `Network.CreateGraphObject` state the
  links only up to orientation.
- JqaMatrix.Entries: the row index lists entries in first-seen order, not
  sorted as pandas does. The product over entries does not depend on the
  order.
- Text.Lower: lower-cases only the ASCII letters `A`-`Z`. Python's
  `str.lower` also maps other Unicode letters.
- CmsMatrix.RefFiles: when no letter has a reference, the reference
  crosstab is empty. The first column assignment at cms-network.py:51 then
  makes the reference table adopt the sender table's files, so the code
  can still output sender and recipient edges. The model keeps the counted
  files empty in that case, so every merged weight is 0 and no edge is
  output. This alignment detail is not modelled.
- Names.Person: holds only the two name fields. Other fields of a
  names-database entry are copied through the cache unchanged by the
  code, and are not read.
- Names.AddNames: the cache file is written once after the loop. A run
  that stops with an error writes nothing back, and the model returns
  only the error.
