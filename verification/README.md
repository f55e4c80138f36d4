# konig core in Dafny

konig finds related files (for example, variants of one malware sample) by giving
each file a fuzzy hash (an ssdeep digest), comparing every pair of digests, and
joining the pairs that score at least a threshold into an undirected weighted graph.
This project models the three steps of that pipeline in `konig.py` and proves their
properties:

- **Hash cache** (`calculatehashes`, module `HashCache`). The table of digests for a
  directory listing is built from an old table. A listed file that is already in
  the old table keeps its old digest and is not read again. Every other listed file
  is read and hashed. Entries for files that are no longer listed are dropped. A
  file that cannot be read aborts the build.
- **Path of a listed file** (module `Paths`). This models POSIX `os.path.join` and
  the path that `calculatehashes` reads for each listed file (see Findings).
- **Graph builder** (`creategraph`, modules `GraphBuilder` and `PairOrder`). The two
  nested loops over the keys and the set of checked keys are modelled as written.
  The proofs show that the loops compute a reference graph, `SimilarityGraph`,
  defined in closed form: there is an edge between distinct keys exactly when their
  score is at least the threshold, and its weight is that score. The trace of
  compare calls is exactly the upper triangle of the key order: n(n-1)/2 calls, and
  no unordered pair is compared twice.
- **Focus** (line 139, module `Focus`). The graph is narrowed to the connected
  component of one file. That is the subgraph induced by the nodes reachable from
  the file. It fails when the file is not a node.

Graphs (module `Graphs`) are the part of a networkx `Graph` the core uses:
- a node set;
- a weight map keyed by ordered pairs, where an undirected edge is stored under both
  orientations;
- paths, reachability and induced subgraphs.

Outside code is passed in as parameters:
- ssdeep's `hash_from_file` is `hashFile`: a function from a listed name to an
  optional digest, where None means the read failed. `CalculateHashesIn` uses
  `readDigest`, the same function over a path.
- ssdeep's `compare` is a function from two digests to an integer.
- The order in which a Python dictionary yields its keys is the sequence `keys`. It
  must list every key of the table exactly once.

Each method returns what it does as ordinary out-parameters:
- `hashed` lists the files the digest function was called on;
- `compared` lists the pairs the compare function was called on.

Two behaviours of the code are worth stating up front:
- `creategraph` only adds edges (line 58), so a file with no partner at or above the
  threshold is not a node of the graph at all. `GraphBuilder.NodeIffPartner` and
  `GraphBuilder.TwoAlikeOneApart` state this. For the table `a:X, b:X, c:Y` at
  threshold 50, the nodes are `a` and `b`, and `c` is absent. Focusing on such a
  file is the `UnknownArtifact` failure of `Focus.FocusSubgraph`.
- `creategraph` accepts any integer threshold, so the model takes any integer too.

## Model

| member | source | states |
|---|---|---|
| HashCache.CalculateHashes | konig.py:28-44 | The build succeeds exactly when every listed file not in the old table can be read. Then the keys are exactly the listed files. A cached file keeps its old digest verbatim. Every other file gets its fresh digest. The digest calls are exactly the uncached files in listing order. On failure, the calls so far are a prefix of those files, and the last call is the unreadable file named in the error. |
| HashCache.CalculateHashesIn | konig.py:28-44 | The same contract, with each uncached file read at its path inside the listed directory (the corrected path of Findings). |
| HashCache.MissesAreUncached | konig.py:35-42 | A file is handed to the digest function exactly when it is listed and not in the old table. There are never more digest calls than listed files. |
| HashCache.NoMissesWhenAllCached | konig.py:37-39 | A listing whose every file is in the old table causes no digest call. |
| HashCache.RerunIsCacheHit | konig.py:35-42 | Rerunning on the same listing, with the previous result as the old table, makes no digest call and so cannot fail. It returns the previous table unchanged, even if the files' contents have changed since. |
| HashCache.MergeStep | konig.py:35-42 | One more listed file extends the digest calls and the table by that file alone: its old digest if cached, otherwise its fresh one. |
| HashCache.MissesOfPrefix | konig.py:35-42 | The digest calls for a prefix of the listing are a prefix of the calls for the whole listing. |
| HashCache.CachedAndNewFile | konig.py:35-42 | Listing `a` (cached as `X`) and a new `b` hashes only `b`, and gives `a:X` plus `b`'s fresh digest. |
| Paths.JoinStep | konig.py:42 | Joining a component gives a path that ends with it. An absolute component replaces the path joined so far. A relative one is appended to the path: a `/` goes in between exactly when the path is non-empty and does not already end in `/`, and nothing else does. |
| Paths.Join | konig.py:42 | Joining no components gives the first path. Otherwise the result ends with the last component, and it is exactly that component when the component is absolute. |
| Paths.ArtifactPathAsWritten | konig.py:42 | The path read as written ends with the file name and is at most one character longer than it. For a relative name it is `/f` (see `Paths.AsWrittenIgnoresDirectory`), so it is never `directory/f` for a non-empty relative directory. |
| Paths.ArtifactPath | konig.py:42 | The corrected path ends with the file name. For a relative name it is the directory followed by the file name, with at most one extra character between them, and that character is `/`. |
| Paths.AbsoluteResets | konig.py:42 | Whatever was joined before an absolute component has no effect on the result. |
| Paths.AsWrittenIgnoresDirectory | konig.py:42 | As written, the path read for a plain file name `f` is `/f`, whatever directory was listed. |
| Paths.AsWrittenReadsOutsideDirectory | konig.py:42 | As written, for a non-empty relative directory the path read does not start with that directory. |
| Paths.ArtifactPathInDirectory | konig.py:42 | The corrected path starts with the directory and ends with the file name. It is `directory/f` when the directory is non-empty and does not end in `/`, and `directory + f` otherwise. |
| GraphBuilder.CreateGraph | konig.py:46-61 | The graph the nested loops build equals the reference similarity graph. The compare calls, in order, are the key pairs at positions i < j of the key order, row by row. |
| GraphBuilder.CompareRow | konig.py:53-59 | One outer iteration adds exactly the qualifying edges between its key and the keys not yet checked. It appends to the trace the pairs of its key with every later key. |
| GraphBuilder.ComparePair | konig.py:54-58 | One inner step compares the outer key with the inner key exactly when the inner key comes later in the order. It adds the edge exactly when the score reaches the threshold. |
| GraphBuilder.SimilarityGraphEdges | konig.py:54-58 | The reference graph has an edge (k, l) exactly when k and l are distinct keys whose score is at least the threshold. Its weight is that score. Every node is an endpoint of an edge. |
| GraphBuilder.SimilarityGraphShape | konig.py:58 | With a symmetric score, every edge is stored under both orientations with one weight, and joins two nodes. |
| GraphBuilder.EdgeReversed | konig.py:58 | With a symmetric score, an edge read the other way round is an edge with the same weight. |
| GraphBuilder.NoSelfLoops | konig.py:54 | No key is joined to itself. |
| GraphBuilder.NodeIffPartner | konig.py:46-61 | A key is a node exactly when some other key scores at least the threshold with it. |
| GraphBuilder.ThresholdMonotone | konig.py:57 | Raising the threshold only removes edges and nodes. The edges that remain keep their weights. |
| GraphBuilder.ThresholdAboveRangeIsEmpty | konig.py:57 | With scores in 0..100, a threshold above 100 gives the empty graph. |
| GraphBuilder.FewerThanTwoKeysIsEmpty | konig.py:51-58 | A table with fewer than two keys gives the empty graph at any threshold. |
| GraphBuilder.ThreeFilesOnlyEdge | konig.py:54-58 | In the three-file scenario, the only possible edge is between `a` and `b`. |
| GraphBuilder.SameDigestEdge | konig.py:54-58 | With a score of 100 for equal digests and 10 otherwise, at threshold 50, an edge joins two distinct keys with equal digests. |
| GraphBuilder.OnlyAAndBAgree | konig.py:54-58 | In the three-file table, the only distinct keys with equal digests are `a` and `b`. |
| GraphBuilder.ThreeFilesEdge | konig.py:54-58 | In the three-file scenario, `a` and `b` are joined with weight 100 in both orientations. |
| GraphBuilder.TwoAlikeOneApart | konig.py:46-61 | For the table `a:X, b:X, c:Y`, a score of 100 for equal digests and 10 otherwise, and threshold 50: the nodes are exactly `a` and `b`, with one edge of weight 100. |
| PairOrder.ComparisonCount | konig.py:48-59 | n keys cost exactly n(n-1)/2 compare calls. |
| PairOrder.ComparisonsAreProperPairs | konig.py:54-55 | Over distinct keys, no key is compared with itself, and only keys of the table are compared. |
| PairOrder.EveryPairCompared | konig.py:51-59 | Every unordered pair of distinct keys is compared, in one orientation or the other. |
| PairOrder.NoPairComparedTwice | konig.py:48-59 | Over distinct keys, no unordered pair is compared twice, in the same orientation or the reverse one. |
| PairOrder.PositionsCompared | konig.py:51-59 | The keys at positions x < y are compared in that orientation. |
| PairOrder.TriangleSize | konig.py:51-59 | The first i rows of the upper triangle over n positions hold i(2n-i-1)/2 pairs. |
| PairOrder.TriangleNoRepeats | konig.py:51-59 | The upper triangle lists no position pair twice. |
| PairOrder.TriangleCovers | konig.py:51-59 | Every position pair x < y with x in the first i rows is listed. |
| PairOrder.NamesAppendRow | konig.py:53-59 | Finishing a row appends that row's key pairs to the trace of the earlier rows. |
| Graphs.AddEdge | konig.py:58 | Adding an edge adds both ends as nodes and stores the weight under both orientations. Every other pair keeps its weight. |
| Graphs.AddEdgeKeepsShape | konig.py:58 | Adding an edge keeps a well-formed graph well formed. It also keeps the rule that every node is an endpoint of an edge. |
| Graphs.Subgraph | konig.py:139 | The induced subgraph keeps exactly the chosen nodes that are in the graph. It keeps exactly the edges with both ends among them, with their weights. |
| Graphs.Neighbours | konig.py:139 | The neighbours of a node are exactly the nodes it has an edge to. |
| Graphs.PathStaysInClosedSet | konig.py:139 | A path that starts in a set no edge leaves stays in that set. |
| Focus.ConnectedComponent | konig.py:139 | The search from the focus node returns exactly the nodes reachable from it. |
| Focus.FocusSubgraph | konig.py:139 | The step fails with `UnknownArtifact` exactly when the focus file is not a node. Otherwise its nodes are exactly those reachable from the focus file, and its edges are exactly the graph's edges among them, with their weights. |
| Focus.ClosedContainsComponent | konig.py:139 | A set that contains the focus and that no edge leaves contains its whole component. |
| Focus.ComponentKeepsIncidentEdges | konig.py:139 | Every edge that touches the component is kept by the focus step, with its weight. |
| Focus.ComponentHasNoIsolatedNodes | konig.py:135-139 | Focusing a graph in which every node has an edge, such as the builder's, again gives a graph in which every node has an edge. |

## Left out

- ssdeep is not part of this model. Its digest and compare functions are parameters, and a failed read is the None digest.
- Python's `posixpath` module is not part of this model. `Paths.Join` follows the POSIX rule of its `join`: an absolute component replaces the path so far, and other components are appended after one separator.
- Reading the directory listing (`os.listdir`) is left out: the listing is a parameter. So is reading file contents: it is inside the digest parameter.
- GraphBuilder.CreateGraph: requires a symmetric score, which ssdeep's compare is taken to be. The comparison in the loop is made in one orientation only. With an asymmetric score, the weight of an edge would depend on the key order.
- Python dictionary order is a parameter `keys` that lists every key exactly once. The graph `CreateGraph` returns does not depend on it. The order of its `compared` trace does.
- Edge and node attributes other than the weight are left out. The source sets no others.
- `.copy()` after `subgraph` is not modelled: graphs here are values, so a copy changes nothing.
- The command line, the config file and the choice of threshold (lines 63-94) are left out. That part of the source is not syntactically complete. `CreateGraph` takes the threshold as an argument.
- The default `threshold=50` of `creategraph` (line 46) is not modelled. `main` always passes `kthreshold` explicitly (line 135), so the default is never used.
- The choice of hash database and hash directory (lines 96-122) is left out. The old table and the listing are parameters.
- Loading and saving the hash table as JSON (lines 104-108 and 128-131) is left out: it is I/O. So are loading and saving the graph with pickle and exporting it as GraphML (lines 110-114 and 141-150). So are the graph summary and the plotting (lines 152-160).
- File names are modelled as strings and compared as such. In Python 2, `os.listdir` on a `str` directory (line 32) returns byte strings, while `json.load` (line 108) returns unicode keys. A non-ASCII file name therefore never matches its cached key at line 37, and it is hashed again on every run. `HashCache.RerunIsCacheHit` holds when the previous table is passed back directly. It does not describe a table that went through the JSON save and load, for such names.
- The shared mutable default `oldhashes={}` of `calculatehashes` is not modelled. The function never mutates it, so an explicit argument behaves the same.

## Findings

| source | as written | input that shows it | evidently intended | confidence | as-written member | corrected member |
|---|---|---|---|---|---|---|
| konig.py:42 | `os.path.join(directory, '/', f)` passes the separator as a component of its own. `'/'` is absolute, so the join discards the directory, and the file read is `/f` in the root directory. | directory `samples`, listed file `a.exe`: the path read is `/a.exe`, not `samples/a.exe` | `os.path.join(directory, f)`, the file inside the listed directory | high; not executed | Paths.AsWrittenIgnoresDirectory, Paths.AsWrittenReadsOutsideDirectory | Paths.ArtifactPathInDirectory, HashCache.CalculateHashesIn |
