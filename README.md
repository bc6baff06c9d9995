# PDER data pipeline — a Dafny model

PDER prepares a question/answer site dump (Stack Exchange style) for a
graph-embedding recommender. This project models the three deterministic parts of
that pipeline and proves what they promise:

- **The meta-path random walker** (`src/generate_walk.py`). An undirected
  tripartite graph has question (`Q_<id>`), asker (`R_<id>`) and answerer
  (`A_<id>`) nodes. Walks follow a cyclic type pattern such as `AQRQA` and restart
  with probability `alpha`. Modules: `Graph` (the graph as an ordered adjacency
  map), `RandomWalk` (one walk as a function of its random draws), `Shuffling`
  (Python's `random.shuffle`), `Generation` (all walks of all patterns) and
  `MetaPath` (the `MetaPathGenerator` class, whose methods update the graph and
  run the walk loops).
- **The skip-gram batcher** (`src/data_loader.py`). Modules: `Corpus` (token
  frequencies and the negative-sampling table), `Windows` (the context window of
  `__slide_through`), `Entities` (the `3 × n` type-separated encoding) and
  `Loader` (the `DataLoader` class with its batch cursor and user-index maps).
- **The preprocessing rules** (`src/preprocessing.py`). Modules: `CleanText`
  (`clean_str2`), `QA` (the question/answer map, the per-user counts, the
  test-eligibility rule, the training split and the participant-user set, held in
  a `Preprocessor` class) and `BestAnswer` (the best-answerer selection).

`Outcomes` holds the `Option`/`Result` types. `Text` holds the string helpers the
source borrows from Python (`split`, `join`, `strip`, `int()` and `str()` of an
integer).

Randomness enters as input. A walk takes `draw: nat -> real` (the `k`-th
`rand.random()`) and `pick: nat -> nat` (the `k`-th `rand.choice` index, taken
modulo the candidate count). The shuffle takes a draw stream whose `k`-th value,
modulo `i + 1`, is the swap partner of position `i`. The negative samples take
`negPick` (modulo the table size). The test sample is a given set. Files become
sequences of lines or records, and an exception becomes a `Failure` value.

## Model

| member | source | states |
|---|---|---|
| `Graph.AddNode` | src/generate_walk.py:59 | adding a node gives exactly one more key, and every existing adjacency list stays as it was |
| `Graph.Link` | src/generate_walk.py:59 | appending `v` to `u`'s neighbours adds exactly `v` to them, touches no other node, and keeps a duplicate-free list duplicate-free |
| `Graph.Connect` | src/generate_walk.py:59 | one undirected edge makes both ends nodes of the graph and adds no other node |
| `Graph.ConnectAdjacency` | src/generate_walk.py:59 | after one edge, `x` and `y` are adjacent iff they were before or `{x, y}` is that edge, in either direction |
| `Graph.ConnectNodesListed` | src/generate_walk.py:59 | node-list bookkeeping is kept: each node is listed once, in insertion order |
| `Graph.ConnectNeighboursListed` | src/generate_walk.py:59 | each adjacency list stays free of duplicates and refers only to nodes of the graph |
| `Graph.ConnectSymmetric` | src/generate_walk.py:59 | adjacency stays symmetric: the graph is undirected |
| `Graph.ConnectExisting` | src/generate_walk.py:59 | re-adding an edge that is already there leaves the graph unchanged |
| `Graph.AddEdge` | src/generate_walk.py:59 | `add_edge` keeps the graph valid, adds exactly the edge in both directions, and is a no-op on an existing edge |
| `Graph.AddEdgesAdjacency` | src/generate_walk.py:52-67 | `add_edges_from` keeps the graph valid, and two nodes are adjacent afterwards iff they were before or the list names that pair in either order |
| `Graph.OfTypeMembers` | src/generate_walk.py:86-87 | the comprehension keeps exactly the nodes whose first character is the requested type |
| `Graph.OfTypeDistinct` | src/generate_walk.py:86-87 | filtering a duplicate-free node list gives a duplicate-free list |
| `Graph.EdgesIffNodes` | src/generate_walk.py:81 | in a valid graph, "no edges" and "no nodes" coincide, so the exit test fails exactly for the empty graph |
| `MetaPath.EdgeList` | src/generate_walk.py:55-58 | one edge per input line, each `("Q_"+a, "R_"+b)` (or `"A_"+b`) |
| `MetaPath.EdgeEndTyped` | src/generate_walk.py:57-58 | every end of a listed edge starts with one of the two type letters |
| `MetaPath.BuildAdjacency` | src/generate_walk.py:52-67 | the built graph is valid, its edges are exactly the `Q_`–`R_` and `Q_`–`A_` pairs of the two files, and every node starts with `Q`, `R` or `A` |
| `MetaPath.MetaPathGenerator.constructor` | src/generate_walk.py:27-31 | stores the walk length and walk count and starts from the empty graph |
| `MetaPath.NewGenerator` | src/generate_walk.py:27-33 | constructing a generator (defaults `length=100`, `num_walks=10000` as `DEFAULT_WALK_LENGTH`, `DEFAULT_NUM_WALKS`) succeeds iff both edge files have two fields on every line, and then holds the parameters and exactly the graph `initialize` builds, which is valid |
| `MetaPath.MetaPathGenerator.Initialize` | src/generate_walk.py:35-67 | adds the `Q_R` edges, then the `Q_A` edges; a line with fewer than two fields raises `IndexError` before its file's edges are added, so only the edges of an earlier, complete file remain |
| `MetaPath.MetaPathGenerator.EdgeLines` | src/generate_walk.py:55-58 | the edge-list loop succeeds iff every line has two fields, and otherwise reports the first short line |
| `MetaPath.MetaPathGenerator.GetNodeList` | src/generate_walk.py:69-87 | fails with the empty-graph exit iff the graph has no edges or no nodes; otherwise returns exactly the nodes of the requested type (all nodes for `None`), in graph order |
| `MetaPath.MetaPathGenerator.MetaPathWalk` | src/generate_walk.py:132-185 | the `while` loop returns exactly the rendered walk `RandomWalk.Walk` defines for the same draws |
| `MetaPath.MetaPathGenerator.NextNode` | src/generate_walk.py:170-179 | one loop iteration appends exactly the node `RandomWalk.StepNode` prescribes (neighbour of the wanted type, or `walk[0]`), or raises as it does |
| `MetaPath.MetaPathGenerator.WalkRound` | src/generate_walk.py:122-127 | one round appends one walk per start node, in order |
| `MetaPath.MetaPathGenerator.PatternRounds` | src/generate_walk.py:120-127 | `num_walks` rounds, each shuffling the start list in place before walking, give exactly `Generation.PatternWalks` and consume the shuffle draws `Shuffling.RoundStart` counts |
| `MetaPath.MetaPathGenerator.GenerateMetapaths` | src/generate_walk.py:89-130 | the method returns exactly `Generation.Generate`, whose content `Generation.GenerateResult` states |
| `MetaPath.RoundAppended` | src/generate_walk.py:120-127 | the walks of `c + 1` rounds are those of `c` rounds followed by one more round over the next shuffle |
| `MetaPath.Advance` | src/generate_walk.py:165-183 | while the loop guard holds, the walk is shorter than its final length, and the updated pattern index is the one the next step uses |
| `MetaPath.Finish` | src/generate_walk.py:165 | when the loop guard fails, the walk built so far is the final walk |
| `MetaPath.PhaseStep` | src/generate_walk.py:168 | the wrap `pat_ind = 1` when `pat_ind == len(pattern)` yields the index `RandomWalk.PatternIndexAt` names |
| `MetaPath.PrefixStep` | src/generate_walk.py:170-183 | appending the step's node to a prefix of `k - 1` steps gives the prefix of `k` steps |
| `MetaPath.LoopGuard` | src/generate_walk.py:165 | the guard `len(walk) <= walk_length or pat_ind != len(pattern)` holds at every step before the final one |
| `RandomWalk.PatternIndexAt` | src/generate_walk.py:158-183 | step `k` uses pattern index `((k-1) mod (len-1)) + 1`, which lies in `1 .. len-1`, so index 0 is skipped on wrap |
| `RandomWalk.StepCount` | src/generate_walk.py:165 | the number of steps is at least `walk_length`, completes a pattern cycle, and is the least such number |
| `RandomWalk.WalkPrefix` | src/generate_walk.py:158-183 | a successful prefix of `k` steps has `k + 1` nodes and begins with `start` |
| `RandomWalk.Walk` | src/generate_walk.py:154-183 | defines the walk `__meta_path_walk` builds before `" ".join`, or the exception it raises; its properties are stated by `RandomWalk.WalkShape`, `RandomWalk.WalkStep` and `RandomWalk.WalkFailures`, and `MetaPath.MetaPathGenerator.MetaPathWalk` is proved to return its rendering |
| `RandomWalk.WalkShape` | src/generate_walk.py:154-183 | an empty pattern exits; a one-letter pattern succeeds only for `walk_length = 0`; a successful walk starts at `start`, has at least `walk_length + 1` nodes, its length minus one is a multiple of `len(pattern) - 1`, and it is the shortest such walk |
| `RandomWalk.PrefixNotEmptyGraph` | src/generate_walk.py:158-183 | a walk prefix never reports the empty-graph exit |
| `RandomWalk.WalkNotEmptyGraph` | src/generate_walk.py:152-185 | a single walk never reports the empty-graph exit, which belongs to `generate_metapaths` |
| `RandomWalk.PrefixOfPrefix` | src/generate_walk.py:160-183 | the walk is built by appending only: a shorter prefix is an initial segment of a longer successful one |
| `RandomWalk.FailureSticks` | src/generate_walk.py:173-177 | once a step raises, every longer prefix raises the same exception |
| `RandomWalk.WalkStep` | src/generate_walk.py:170-181 | node `i` of a walk is `start` after a restart draw (`draw < alpha`), and otherwise a neighbour of node `i - 1` whose type is `pattern[PatternIndexAt(i)]` |
| `RandomWalk.NoRestartWithAlphaZero` | src/generate_walk.py:171-177 | with `alpha = 0` and non-negative draws every step moves to a neighbour of the wanted type |
| `RandomWalk.AllRestartsWithAlphaOne` | src/generate_walk.py:171-179 | with `alpha = 1` and draws below 1 every step restarts, so the walk repeats `start` and never fails |
| `RandomWalk.RestartPrefix` | src/generate_walk.py:178-179 | a restart appends `walk[0]`, not the current node: all-restart prefixes are copies of `start` |
| `RandomWalk.PrefixNodesKnown` | src/generate_walk.py:173-182 | on a valid graph every walk node is the start or a graph node |
| `RandomWalk.WalkFailures` | src/generate_walk.py:173-177 | on a valid graph a walk raises only when `start` is not a graph node (`G.neighbors`) or when a graph node has no neighbour of the type the pattern asks for (`rand.choice` on an empty list) |
| `Shuffling.ShuffleDown` | src/generate_walk.py:121 | the Fisher–Yates pass from position `i` down keeps the length |
| `Shuffling.ShuffleDownPermutes` | src/generate_walk.py:121 | the swap pass is a permutation |
| `Shuffling.Shuffled` | src/generate_walk.py:121 | `random.shuffle` keeps the length |
| `Shuffling.ShuffledPermutes` | src/generate_walk.py:121 | `random.shuffle` only reorders: the shuffled list is a permutation of the list |
| `Shuffling.Swap` | src/generate_walk.py:121 | one Fisher–Yates step swaps entries `i` and `j` and changes nothing else |
| `Shuffling.Shuffle` | src/generate_walk.py:121 | the in-place shuffle of the array leaves exactly `Shuffled` of the old contents, a permutation of them |
| `Shuffling.RoundStart` | src/generate_walk.py:120-121 | the draw position after `c` shuffles is never before the first |
| `Shuffling.RoundStartClosed` | src/generate_walk.py:120-121 | each shuffle of `n` items consumes the same number of draws, so `c` shuffles consume `c` times that |
| `Shuffling.ShuffleRounds` | src/generate_walk.py:120-121 | the repeatedly shuffled start list keeps its length |
| `Shuffling.ShuffleRoundsStep` | src/generate_walk.py:120-121 | the list after `c + 1` rounds is the list after `c` rounds, shuffled once more |
| `Shuffling.ShuffleRoundsPermutes` | src/generate_walk.py:120-121 | the list after any number of rounds is a permutation of the initial list |
| `Shuffling.RoundStartsLength` | src/generate_walk.py:120-122 | `c` rounds over `n` start nodes begin `c · n` walks |
| `Shuffling.RoundStartsCount` | src/generate_walk.py:120-122 | across `c` rounds each start node begins exactly `c` walks, so `c · n` walks in all |
| `Shuffling.RoundStartsMembers` | src/generate_walk.py:120-122 | every walk of the rounds starts at a node of the start list |
| `Generation.Render` | src/generate_walk.py:185 | rendering `" ".join(walk)` succeeds exactly when the walk does and keeps its exception |
| `Generation.WalkerNotEmptyGraph` | src/generate_walk.py:152-185 | no walk started by `generate_metapaths` reports the empty-graph exit |
| `Generation.AllWalksStep` | src/generate_walk.py:115-127 | an empty pattern fails; otherwise one more pattern appends `num_walks` rounds over the nodes of type `pattern[0]` and advances the shuffle draws accordingly |
| `Generation.StartsOfShuffles` | src/generate_walk.py:119-122 | the start order used by the generator is exactly the sequence of shuffled rounds |
| `Generation.BlockShape` | src/generate_walk.py:118-122 | one pattern's block has `num_walks × |nodes of type pattern[0]|` walks, each starting at a node of that type and tagged with that pattern |
| `Generation.ShuffleBlocks` | src/generate_walk.py:118-122 | for every nonempty pattern and every draw position, the shuffled block has the size and typing `BlockShape` states |
| `Generation.PlanSize` | src/generate_walk.py:115-127 | for any start order whose blocks have that size, the plan of the first `k` patterns has `Σ num_walks × |nodes of type p[0]|` entries |
| `Generation.PlanShape` | src/generate_walk.py:115-127 | for any start order whose blocks are typed, every entry of the plan pairs a nonempty pattern of the list with a node of the pattern's first type |
| `Generation.RoundWalksRendered` | src/generate_walk.py:122-127 | a round's `j`-th line is the walk from its `j`-th start node |
| `Generation.PatternWalksRendered` | src/generate_walk.py:120-127 | the lines of a pattern are, in order, the walks of its planned (start, pattern) pairs |
| `Generation.AllWalksPatterns` | src/generate_walk.py:115-118 | a successful run had no empty pattern |
| `Generation.AllWalksRendered` | src/generate_walk.py:115-127 | line `i` of a successful run is the rendered walk of plan entry `i`, with walk draws numbered `i` |
| `Generation.RoundWalksFailure` | src/generate_walk.py:122-127 | the first walk that raises ends the round with its exception |
| `Generation.PatternWalksFailure` | src/generate_walk.py:120-127 | a failed round ends the pattern with its exception |
| `Generation.AllWalksFailure` | src/generate_walk.py:115-127 | a failed pattern ends the run with its exception |
| `Generation.RoundNoEmptyGraph` | src/generate_walk.py:122-127 | a round never reports the empty-graph exit |
| `Generation.PatternNoEmptyGraph` | src/generate_walk.py:120-127 | a pattern never reports the empty-graph exit |
| `Generation.AllNoEmptyGraph` | src/generate_walk.py:115-127 | the pattern loop never reports the empty-graph exit |
| `Generation.Generate` | src/generate_walk.py:104-130 | defines what `generate_metapaths` returns, or the exit or exception that ends it; its content is stated by `Generation.GenerateResult` |
| `Generation.GenerateResult` | src/generate_walk.py:104-130 | the run exits for the empty graph and only then; a successful run had no empty pattern, returns exactly `Σ num_walks × |nodes of type p[0]|` lines, and line `i` is the rendered walk from plan entry `i`'s start node under its pattern |
| `Text.SplitJoin` | src/data_loader.py:48 | splitting on `" "` a line joined with `" "` from space-free tokens gives back the tokens |
| `Text.DigitsValueOfNat` | src/data_loader.py:149 | the decimal digits of a natural number read back as that number |
| `Text.IntRoundTrip` | src/data_loader.py:149 | `int(str(i)) == i` for every integer |
| `Text.IntToStringChars` | src/data_loader.py:148-149 | `str(i)` holds only digits and `-`, never `_` or a space |
| `Text.StripLeftSlice` | src/data_loader.py:268 | the left-stripped string is a suffix that starts with a non-space, and everything removed is whitespace |
| `Text.StripRightSlice` | src/data_loader.py:268 | the right-stripped string is a prefix that ends with a non-space, and everything removed is whitespace |
| `Text.StripSlice` | src/data_loader.py:268 | `strip()` returns a contiguous slice with no whitespace at either end, and removes only whitespace |
| `Text.IntOf` | src/data_loader.py:268 | defines `int(line.strip())`: an optional sign and ASCII digits after stripping, or the `ValueError` as `None`; its properties are stated by `Text.IntOfRoundTrip` |
| `Text.IntOfRoundTrip` | src/data_loader.py:268 | `int(line.strip())` reads back every integer's `str` |
| `Entities.Row` | src/data_loader.py:145 | the type map `D` sends `A`, `Q`, `R` to rows below 3 |
| `Entities.TypeOf` | src/data_loader.py:145 | each row has a type letter that `D` maps back to it |
| `Entities.Decode` | src/data_loader.py:148-149 | defines the decoding of one item, raising `KeyError`, `IndexError` or `ValueError` in Python's evaluation order; its properties are stated by `Entities.DecodeEncode`, `Entities.DecodeIgnoresTail` and `Entities.DecodeAllFailure` |
| `Entities.DecodeEncode` | src/data_loader.py:148-149 | decoding `"<T>_<id>"` gives back the row of `T` and the id |
| `Entities.DecodeIgnoresTail` | src/data_loader.py:148-149 | only the first two `_`-separated fields are read |
| `Entities.DecodeAll` | src/data_loader.py:147-150 | a successful decode yields one entry per item |
| `Entities.FirstBad` | src/data_loader.py:147-149 | locates the first item that does not decode: all earlier items decode |
| `Entities.DecodeAllSuccess` | src/data_loader.py:147-150 | the whole list decodes iff every item does, entry by entry |
| `Entities.DecodeAllFailure` | src/data_loader.py:147-150 | a failed list reports the exception of its first bad item |
| `Entities.DecodeAllPrefixFailure` | src/data_loader.py:147-150 | a failure in a prefix is the failure of the whole list |
| `Entities.DecodeAllSnoc` | src/data_loader.py:147-150 | decoding one more item extends the result or fails with that item's exception |
| `Entities.SeparateEntity` | src/data_loader.py:132-151 | builds the `3 × n` array iff every item decodes (else raises the first item's exception); column `j` holds item `j`'s id in its type's row and 0 in the other rows |
| `Entities.ColumnRecovers` | src/data_loader.py:146-150 | a nonzero id is recovered from its column together with its type; an id of 0 leaves an all-zero column |
| `Corpus.FirstSeenMembers` | src/data_loader.py:60-63 | the dictionary keys are the distinct tokens of the corpus, each once |
| `Corpus.CountList` | src/data_loader.py:66 | one `(token, count)` entry per distinct token |
| `Corpus.Keys` | src/data_loader.py:66 | the key column has one entry per pair |
| `Corpus.SortByCount` | src/data_loader.py:67 | the sort keeps the number of entries |
| `Corpus.Insert` | src/data_loader.py:67 | inserting into the sorted list adds one entry |
| `Corpus.InsertPermutes` | src/data_loader.py:67 | insertion adds exactly the new entry |
| `Corpus.InsertSorted` | src/data_loader.py:67 | insertion keeps the list in non-increasing count order |
| `Corpus.InsertWithCount` | src/data_loader.py:67 | an earlier entry goes in front of the later entries of equal count, which is how the stable sort orders ties |
| `Corpus.InsertTotal` | src/data_loader.py:67 | insertion adds the new entry's count to the total |
| `Corpus.SortByCountCorrect` | src/data_loader.py:67 | `sort(key=count, reverse=True)` gives a non-increasing permutation that keeps the first-seen order among equal counts, and keeps the total |
| `Corpus.SumOverAdd` | src/data_loader.py:63 | adding one occurrence raises the total over the keys by one iff the token is a key |
| `Corpus.FirstSeenTotal` | src/data_loader.py:60-63 | the counts of the distinct tokens sum to the number of tokens |
| `Corpus.CountListTotal` | src/data_loader.py:66 | the count column sums to the total of the occurrences |
| `Corpus.TotalSnoc` | src/data_loader.py:66 | the total of a list with one more entry grows by that entry's count |
| `Corpus.Frequencies` | src/data_loader.py:51-68 | defines the list `__count_dataset` returns; its properties are stated by `Corpus.FrequenciesCorrect` |
| `Corpus.FrequenciesCorrect` | src/data_loader.py:60-68 | `__count_dataset` lists each distinct token once with its number of occurrences; the list is in non-increasing count order, ties keep first-seen order, and the counts sum to the token total |
| `Corpus.PermutedKeys` | src/data_loader.py:67 | a permutation of a list with distinct keys has the same distinct keys |
| `Corpus.DistinctMultiplicity` | src/data_loader.py:67 | an entry of a list with distinct keys occurs once |
| `Corpus.TallyStep` | src/data_loader.py:63 | `count_dict[entity] = count_dict.get(entity, 0) + 1` keeps the tally invariant: first-seen keys and occurrence counts |
| `Corpus.CountPath` | src/data_loader.py:62-63 | the inner loop tallies one path, keeping the invariant |
| `Corpus.CountDataset` | src/data_loader.py:51-68 | the method returns exactly the frequency list whose properties `FrequenciesCorrect` states |
| `Corpus.Copies` | src/data_loader.py:85 | `[token] * n` has `n` entries |
| `Corpus.CopiesCount` | src/data_loader.py:85 | `[token] * n` holds `token` exactly `n` times and nothing else |
| `Corpus.Table` | src/data_loader.py:82-86 | defines the sample table, token `i` of the count list repeated `mult[i]` times in count order; its properties are stated by `Corpus.TableContents` |
| `Corpus.TableContents` | src/data_loader.py:84-86 | the table length is the sum of the multiplicities, it holds only listed tokens, and with distinct tokens token `k` occurs exactly `mult[k]` times |
| `Corpus.AssembleTable` | src/data_loader.py:82-86 | the loop builds exactly the concatenation, in count order, of `mult[i]` copies of token `i` |
| `Windows.PairsAtContext` | src/data_loader.py:176-177 | the pairs at `pos` are exactly `[token, context]` for each token of `lcontext + rcontext`, in that order |
| `Windows.SlidePairs` | src/data_loader.py:165-179 | a window of 0 yields no pairs |
| `Windows.Windows` | src/data_loader.py:166-174 | the left context is the `min(pos, W)` tokens just before `pos`; the right context is the `min(W-1, L-1-pos)` tokens just after it (so one fewer than the docstring's picture) |
| `Windows.ContextPositions` | src/data_loader.py:166-174 | every context token comes from an index inside `[0, L)` other than `pos` |
| `Windows.SlidePairsCount` | src/data_loader.py:165-179 | the pair count is `Σ_pos min(pos, W) + min(W-1, L-1-pos)` |
| `Windows.PairsAtIndices` | src/data_loader.py:176-178 | the pairs at `pos` are `(path[pos], path[i])` for the context indices `i`, left before right |
| `Windows.SlidePairsStay` | src/data_loader.py:165-179 | sliding over more positions only appends: the pairs already collected keep their places |
| `Windows.SlidePairsAt` | src/data_loader.py:165-179 | the pairs of earlier positions come first: pair `m` of position `pos` is pair `PairCount(pos) + m` of the walk |
| `Loader.Kept` | src/data_loader.py:108-117 | at most `batch_size` walks contribute, and the cursor never passes the last walk |
| `Loader.BatchPairs` | src/data_loader.py:111-118 | a window of 0 yields no pairs |
| `Loader.Firsts` | src/data_loader.py:120 | `zip(*pairs)[0]` is the first component of each pair |
| `Loader.Seconds` | src/data_loader.py:120 | `zip(*pairs)[1]` is the second component of each pair |
| `Loader.NegShape` | src/data_loader.py:125-127 | the negative-sample matrix is `(npairs·2·W) × (npairs·neg_ratio)` |
| `Loader.Size` | src/data_loader.py:125-127 | the matrix has entries iff both dimensions are positive |
| `Loader.Negatives` | src/data_loader.py:125-127 | drawing from an empty table fails exactly when samples are asked for; otherwise every sample is a table entry |
| `Loader.PairsFromPath` | src/data_loader.py:176-177 | both tokens of every pair come from the walk |
| `Loader.PairPosition` | src/data_loader.py:165-179 | every pair of a walk is pair `m` of some position `pos`, in the order the positions are visited |
| `Loader.BatchPairsDecode` | src/data_loader.py:111-122 | if every walk token decodes, so does every token of a batch pair |
| `Loader.BatchPairsPrefix` | src/data_loader.py:111-118 | a batch reads only the walks it visits |
| `Loader.LastWalkNeverEmitted` | src/data_loader.py:113-117 | replacing the last walk never changes any batch: its pairs are never emitted |
| `Loader.Exhausted` | src/data_loader.py:108-120 | once the cursor sits on the last walk, a call keeps no walk and fails at the unpack |
| `Loader.ParseUids` | src/data_loader.py:267-268 | parsing the user lines yields one uid per line, or the index of a line that is not an integer |
| `Loader.IndexUidValues` | src/data_loader.py:264-270 | `ind2uid` has key 0 and one key per line, with `ind2uid[i]` the `i`-th uid |
| `Loader.UidIndexValues` | src/data_loader.py:263-269 | `uid2ind` has key 0 and one key per listed uid, with `uid2ind[u]` the last line listing `u` |
| `Loader.UidRoundTrip` | src/data_loader.py:263-270 | for distinct uids the two maps are inverse on the listed users |
| `Loader.ZeroShared` | src/data_loader.py:263-270 | when no line lists uid 0, `uid2ind[0] = 0` survives but `ind2uid[0]` becomes the first uid, so `ind2uid[uid2ind[0]]` is that user, not 0 |
| `Loader.LookupAll` | src/data_loader.py:288-289 | `np.vectorize(lambda x: m[x])(vec)` maps each entry through `m`; it raises for an empty vector or a missing key |
| `Loader.LookupEach` | src/data_loader.py:288 | the elementwise lookup fails iff some key is missing |
| `Loader.LookupRoundTrip` | src/data_loader.py:279-301 | `index2uid(uid2index(vec)) == vec` for a non-empty vector of listed, distinct users |
| `Loader.DataLoader.constructor` | src/data_loader.py:18-34 | the loader starts with the cursor at 0, `process` true, the frequency list of the corpus, and the table assembled from it |
| `Loader.DataLoader.CreateUidIndex` | src/data_loader.py:253-271 | fills `uid2ind`/`ind2uid` line by line and returns the line count; a non-integer line raises and the maps keep the lines before it |
| `Loader.DataLoader.Uid2Index` | src/data_loader.py:279-289 | `uid2index` maps each entry through `uid2ind`, raising for an empty vector or an unknown uid |
| `Loader.DataLoader.Index2Uid` | src/data_loader.py:291-301 | `index2uid` maps each entry through `ind2uid`, raising for an empty vector or an unknown index |
| `Loader.IndexUsers` | src/data_loader.py:263-271 | the loop over the lines sets `uid2ind[uid] = ind`, `ind2uid[ind] = uid` over the pre-set entry for 0; at the first non-integer line it stops with the maps of the lines before |
| `Loader.DataLoader.SlideThrough` | src/data_loader.py:153-179 | the loop returns exactly the pairs `Windows` describes for walk `ind` |
| `Loader.DataLoader.CollectPairs` | src/data_loader.py:104-118 | the cursor advances by exactly the walks kept; `process` drops when the last walk is reached; the pairs are those of the kept walks, in order |
| `Loader.DataLoader.GenerateBatch` | src/data_loader.py:88-130 | corrected: the new cursor, `process` and the three arrays are exactly those the batch specification gives (see `BatchSucceeds`); nothing else changes |
| `Loader.PairColumns` | src/data_loader.py:120-130 | corrected: defines the three outputs made from the gathered pairs, with the negatives separated as one flat list; its properties are stated by `Loader.SeparatePairs` and `Loader.BatchSucceeds` |
| `Loader.BatchColumns` | src/data_loader.py:104-130 | corrected: defines what one `generate_batch` call yields from a cursor; its properties are stated by `Loader.BatchSucceeds`, and `Loader.DataLoader.GenerateBatch` is proved to return the arrays it specifies |
| `Loader.PairColumnsAsWritten` | src/data_loader.py:120-130 | as written: defines the same outputs with the 2-D sample passed to `__separate_entity`, whose rows have no `split`; its failure is stated by `Loader.AsWrittenNeverReturns` |
| `Loader.BatchColumnsAsWritten` | src/data_loader.py:104-130 | as written: defines what one `generate_batch` call yields from a cursor; `Loader.AsWrittenNeverReturns` proves that it always fails |
| `Loader.SeparatePairs` | src/data_loader.py:120-130 | corrected: the unpack, the two separations and the negative draw give exactly the specified columns, or its exception |
| `Loader.BatchSucceeds` | src/data_loader.py:120-130 | corrected: with decodable walks and table and at least one pair, a batch succeeds: `upos`/`vpos` hold one column per pair, and the negatives fill the `(npairs·2·W) × (npairs·neg_ratio)` shape with drawn table entries |
| `Loader.AsWrittenNeverReturns` | src/data_loader.py:120-129 | as written, `generate_batch` never returns a batch |
| `Loader.AddUser` | src/data_loader.py:267-270 | one line adds `uid → ind` and `ind → uid`, or changes nothing when it is not an integer |
| `Loader.ParseUidsSnoc` | src/data_loader.py:267-268 | reading one more line extends the uid list or stops at that line |
| `Loader.MapsSnoc` | src/data_loader.py:269-270 | one more uid updates both maps at one key |
| `Loader.ParseUidsPrefixFailure` | src/data_loader.py:267-268 | a bad line in a prefix is the first bad line of the whole file |
| `Loader.Load` | src/data_loader.py:18-34 | building a loader succeeds iff every user line is an integer; the loader then holds the corpus, its frequencies, the sample table assembled from `mult` (token `k` of the frequency list repeated `mult(k)` times, in count order), the user maps and the user count |
| `CleanText.SubstituteFilter` | src/preprocessing.py:86 | the substitution to spaces keeps every character a filter keeps, if that filter drops spaces and the substituted characters |
| `CleanText.ReplaceAllFilter` | src/preprocessing.py:87-92 | a rewrite whose pattern and replacement agree under a filter does not change the filtered string |
| `CleanText.CollapseFilter` | src/preprocessing.py:93 | collapsing whitespace keeps every non-space character, in order |
| `CleanText.StripFilter` | src/preprocessing.py:95 | stripping keeps every non-space character, in order |
| `CleanText.LowerAlnums` | src/preprocessing.py:95 | lowercasing commutes with keeping the letters and digits |
| `CleanText.RewriteFilter` | src/preprocessing.py:87-92 | the rule sequence keeps every filtered character when each rule does |
| `CleanText.RulesDropApostrophe` | src/preprocessing.py:87-92 | each contraction rule only deletes the apostrophe, and its replacement is letters only |
| `CleanText.ContractionsDropApostrophes` | src/preprocessing.py:87-92 | the contraction rewrites change nothing but apostrophes |
| `CleanText.ContractionsAlnums` | src/preprocessing.py:87-92 | the contraction rewrites keep the letters and digits, in order |
| `CleanText.CleanStr2` | src/preprocessing.py:84-95 | defines `clean_str2` as its steps in order; its properties are stated by `CleanText.KeepsAlnums`, `CleanText.CleanShape` and `CleanText.CleanNormalised` |
| `CleanText.KeepsAlnums` | src/preprocessing.py:84-95 | `clean_str2` keeps the ASCII letters and digits of its input, in order, lowercased |
| `CleanText.SubstituteChars` | src/preprocessing.py:86 | after the first step only `[A-Za-z0-9(),!?'`]` and spaces remain |
| `CleanText.ReplaceAllWithin` | src/preprocessing.py:87-92 | a rewrite keeps a character class its input and replacement stay inside |
| `CleanText.CollapseWithin` | src/preprocessing.py:93 | whitespace collapse introduces no new character other than a space |
| `CleanText.StepsChars` | src/preprocessing.py:86-94 | after punctuation removal only letters, digits and spaces remain |
| `CleanText.StripChars` | src/preprocessing.py:95 | stripping keeps that class and leaves no space at either end |
| `CleanText.LowerChars` | src/preprocessing.py:95 | lowercasing leaves only lowercase letters, digits and spaces, and moves no space |
| `CleanText.CleanShape` | src/preprocessing.py:84-95 | the output of `clean_str2` holds only lowercase ASCII letters, digits and spaces, with no space at either end |
| `CleanText.ReplaceAllAbsent` | src/preprocessing.py:87-92 | a rewrite whose pattern needs a character the input lacks changes nothing |
| `CleanText.RewriteAbsent` | src/preprocessing.py:87-92 | without an apostrophe-like character, the rules change nothing |
| `CleanText.RulesHaveApostrophe` | src/preprocessing.py:87-92 | every contraction pattern contains an apostrophe |
| `CleanText.SubstituteKept` | src/preprocessing.py:86 | the first step leaves an already-substituted string alone |
| `CleanText.CollapseSingle` | src/preprocessing.py:93 | collapse leaves a string with no two adjacent whitespace characters alone |
| `CleanText.LowerNoUpper` | src/preprocessing.py:95 | lowercase leaves a string without capitals alone |
| `CleanText.NormalisedSteps` | src/preprocessing.py:86-94 | the steps before strip leave a normalised string alone |
| `CleanText.NormalisedClass` | src/preprocessing.py:86-94 | a normalised string has no apostrophe, punctuation or double whitespace |
| `CleanText.CleanNormalised` | src/preprocessing.py:84-95 | `clean_str2` is the identity on a normalised string (lowercase words separated by single spaces) |
| `QA.Bump` | src/preprocessing.py:185 | after `count[k] = count.get(k, 0) + 1` the keys are the old keys plus `k` |
| `QA.QuestionCountsAsked` | src/preprocessing.py:177-185 | `count_Q[owner]` rises by the number of listed questions that owner asked |
| `QA.QuestionsMap` | src/preprocessing.py:174-183 | defines `qa_map` after the question lines; its properties are stated by `QA.QuestionsMapKeys` and `QA.QuestionsMapEntry` |
| `QA.QuestionsMapKeys` | src/preprocessing.py:174-183 | the map gains exactly the ids of questions whose `Id` and `OwnerUserId` are present |
| `QA.QuestionsMapEntry` | src/preprocessing.py:176-183 | the last listed record with an id decides its entry, which starts with an empty answer list |
| `QA.AddAnswer` | src/preprocessing.py:195-199 | attaching an answer never adds a question |
| `QA.AnswersMap` | src/preprocessing.py:191-201 | the answer pass keeps the question keys |
| `QA.AnswersMapEntries` | src/preprocessing.py:195-199 | each question's answer list gains, in input order, the `(aid, owner)` pairs of the answers whose ids, owner and known parent are present |
| `QA.AnswerCountsAnswered` | src/preprocessing.py:198-201 | `count_A[owner]` rises by the number of attached answers of that owner |
| `QA.Candidate` | src/preprocessing.py:215-228 | defines the test that puts a question in the sample table; its properties are stated by `QA.LaterAcceptedIgnored` and `QA.Preprocessor.SampleTable` |
| `QA.LaterAcceptedIgnored` | src/preprocessing.py:223-228 | because of the `break`, an accepted answer in any position but the first never makes a question eligible |
| `QA.TrainMap` | src/preprocessing.py:254-256 | the training keys are the keys minus the test ids minus the questions without answers, and their entries are unchanged |
| `QA.Preprocessor.constructor` | src/preprocessing.py:32-35 | the map, both counts and the participant set start empty |
| `QA.Preprocessor.AddQuestions` | src/preprocessing.py:170-188 | the question loop produces exactly `QuestionsMap` and `QuestionCounts`, keeping the counts consistent with the map |
| `QA.Preprocessor.AddAnswers` | src/preprocessing.py:191-208 | the answer loop produces exactly `AnswersMap` and `AnswerCounts` |
| `QA.Preprocessor.SampleTable` | src/preprocessing.py:215-228 | the sample table is exactly the set of questions that have an accepted answer, whose first answer is it, and whose asker and first answerer both reach the threshold |
| `QA.Preprocessor.SplitTrain` | src/preprocessing.py:254-256 | the deletion loop leaves exactly `TrainMap` and nothing else changes |
| `QA.Preprocessor.ExtractQuestionUsers` | src/preprocessing.py:286-293 | adds every asker of the training map as an int; a non-integer owner raises and only some askers were added |
| `QA.Preprocessor.ExtractAnswerUsers` | src/preprocessing.py:323-336 | adds every answerer of the training map as an int; a non-integer owner raises and only some answerers were added |
| `QA.AddOwners` | src/preprocessing.py:331-332 | one question's answer list adds its owners as ints, or stops at a non-integer owner |
| `QA.Preprocessor.WritePartUsers` | src/preprocessing.py:486-492 | the written ids are strictly ascending (sorted, no duplicates) and exactly the participant set |
| `QA.LeastExists` | src/preprocessing.py:489-490 | a non-empty set of ids has a least element, so the sorted output can begin |
| `BestAnswer.StrLessIrreflexive` | src/preprocessing.py:476 | string `<` is irreflexive |
| `BestAnswer.StrLessTotal` | src/preprocessing.py:476 | string `<` relates any two different strings |
| `BestAnswer.StrLessTransitive` | src/preprocessing.py:476 | string `<` is transitive |
| `BestAnswer.StrLessAsymmetric` | src/preprocessing.py:476 | string `<` is asymmetric |
| `BestAnswer.StrLessOrder` | src/preprocessing.py:476 | string `<` is a strict total order, so `max` over score strings is well defined |
| `BestAnswer.Max` | src/preprocessing.py:476 | `max` returns one of the items |
| `BestAnswer.IndexOf` | src/preprocessing.py:476 | `list.index` returns the first position holding the value |
| `BestAnswer.MaxGreatest` | src/preprocessing.py:476 | no item is greater than `max` |
| `BestAnswer.FirstGreatest` | src/preprocessing.py:476-477 | `scores.index(max(scores))` is a position of a greatest item, and every earlier item is strictly smaller |
| `BestAnswer.AnswerMaps` | src/preprocessing.py:452-459 | `aid_score` and `accaid_uaid` have the same keys |
| `BestAnswer.AnswerMapsKeys` | src/preprocessing.py:455-459 | both maps have a key for exactly the answer ids in the file |
| `BestAnswer.AnswerMapsLast` | src/preprocessing.py:455-459 | the last record with an id decides its score and owner |
| `BestAnswer.BuildAnswerMaps` | src/preprocessing.py:452-463 | the loop builds exactly those two maps |
| `BestAnswer.AnswerIds` | src/preprocessing.py:474 | `list(zip(*ans))[0]` is the answer-id column |
| `BestAnswer.BestAnswererAsWritten` | src/preprocessing.py:467-479 | as written: defines the owner printed for a record, or none when the line raises; its properties are stated by `BestAnswer.AsWrittenFirstGreatestText` and `BestAnswer.AsWrittenIgnoresAccepted` |
| `BestAnswer.AsWrittenFirstGreatestText` | src/preprocessing.py:469-478 | as written, a question with two or more scored answers gets the owner of the first answer whose score TEXT is greatest |
| `BestAnswer.AsWrittenIgnoresAccepted` | src/preprocessing.py:469 | as written, the accepted answer never matters |
| `BestAnswer.AcceptedAnswerOverruled` | src/preprocessing.py:469-478 | as written, an accepted first answer with the lower score loses to the other answer; the corrected rule picks the accepted answer's owner |
| `BestAnswer.TextScoresMisrank` | src/preprocessing.py:475-477 | as written, a score whose text is greater but whose value is smaller wins; the corrected rule picks the higher value |
| `BestAnswer.NineBeforeTen` | src/preprocessing.py:476 | `"10" < "9"` as strings while 9 < 10 as numbers |
| `BestAnswer.BestAnswerer` | src/preprocessing.py:469-478 | corrected: defines the intended rule, the accepted answer's owner or else the owner of the first answer with the greatest integer score; its properties are stated by `BestAnswer.AcceptedChosen` and `BestAnswer.FallbackFirstGreatest` |
| `BestAnswer.AcceptedChosen` | src/preprocessing.py:469-470 | corrected: a question with an accepted answer gets that answer's owner |
| `BestAnswer.FallbackFirstGreatest` | src/preprocessing.py:472-478 | corrected: without an accepted answer, the owner of the first answer with the greatest numeric score |
| `BestAnswer.Lines` | src/preprocessing.py:465-483 | corrected: at most one output line per record |
| `BestAnswer.LinesChosen` | src/preprocessing.py:465-483 | corrected: every line is `(qid, owner)` for a record whose best answerer exists, and every such record has its line |
| `BestAnswer.ChosenIndices` | src/preprocessing.py:465-483 | corrected: the positions of the records that write a line: ascending, and exactly the records whose best answerer exists |
| `BestAnswer.LinesInOrder` | src/preprocessing.py:465-483 | corrected: one line per record with a best answerer, in record order: line k is `(qid, owner)` of the k-th such record |
| `BestAnswer.ExtractQuestionBestAnswerer` | src/preprocessing.py:429-483 | corrected: the pass writes exactly those lines |

## Left out

- File and directory handling, JSON, logging and `print` are left out: inputs are sequences of lines or records, and outputs are return values.
- `networkx` is not part of this model. The graph is a map from each node to its neighbours in insertion order, plus the node list in insertion order, matching what `G.nodes` and `G.neighbors` return.
- Randomness is an input, as described above. `rand.choice` on `n` candidates uses the pick modulo `n`, and the negative samples use `negPick(j)` modulo the table size. The model does not capture the distribution, only that every value comes from the candidates.
- The floating-point part of `__init_sample_table` (`** 0.75`, normalisation, `np.round`, the `1e8` table size) is left out: the per-token multiplicities are an input, `mult`, and only the table assembly is modelled.
- `np.random.choice` for the test sample and the test size `int(total * prop_test)` are floating-point and random: the sampled test set is an input to `QA.Preprocessor.SplitTrain`.
- The `test.txt` and `test_q_alist.txt` output loop (`src/preprocessing.py:241-251`) only prints and is left out, as are the `QAU_Map_all.json` dump and the `Q_ACC.txt` lines.
- `word2vec`, `qid2vecs`, `sen2vecs`, `__load_questions`, `clean_str`, `clean_html`, `split_post`, `remove_stopwords`, `extract_question_content`, `extract_answer_score` and `write_metapaths` are I/O or foreign-library code and are not part of this model.
- `src.old/model2.py` (the PyTorch network) is not part of this model.
- The batch arrays are `numpy` float matrices. The model keeps them as `int` arrays, because the ids are the integers the source writes.
- The module-global `data_index` is the field `dataIndex` of `DataLoader`. `qa_map`, local to `process_QA`, is the field `qaMap` of `Preprocessor`, beside the module-global `count_Q`, `count_A` and `part_user`.
- Python's `int()` also accepts `_` separators and Unicode digits; `Text.IntOf` accepts only an optional sign (`-` or `+`) followed by ASCII digits, so `_` separators and non-ASCII digits are refused. `strip()` and `\s` are modelled with ASCII whitespace only.
- The order of Python dictionaries is not modelled. The `QAU_Map.json` records reach `BestAnswer` and `QA.Preprocessor.ExtractQuestionUsers` as a sequence or a map, and `SampleTable` returns a set.
- A missing JSON attribute (`None`) is the empty string. A missing owner in `extract_question_best_answerer` would print `None`; the model gives `""`.
- A one-letter pattern with `walk_length ≥ 1` either indexes `pattern[1]` (an `IndexError`) or, when every draw restarts, loops forever. The model reports both as `PatternTooShort`.
- `Loader.DataLoader.SlideThrough`, `Loader.DataLoader.GenerateBatch`: the batch works on `seq` values rather than `numpy` arrays, and `zip(*pairs_list)` on an empty list is the `NothingToUnpack` failure rather than a `ValueError`.
- `Loader.DataLoader.GenerateBatch`, `Loader.SeparatePairs`: these use the corrected `BatchColumns`, which gives one column per drawn negative token. As written, every call that gathers a pair raises at line 129 (see `Loader.BatchColumnsAsWritten` and `Loader.AsWrittenNeverReturns`, Findings row 1).
- `Shuffling.Shuffle` assumes that `random.shuffle` draws `randbelow(i + 1)` for `i` from `n - 1` down to 1, one draw each. The model fixes that count, `ShuffleDraws(n)`, but not how `randbelow` consumes the underlying random bits.
- The spelling `"AcceptedAnswerID"` and the string comparison of scores are modelled as written in `BestAnswer.BestAnswererAsWritten` (see Findings). The rest of the model uses the corrected `BestAnswer.BestAnswerer`.
- `BestAnswer.Lines`, `BestAnswer.LinesChosen`, `BestAnswer.ChosenIndices`, `BestAnswer.LinesInOrder`, `BestAnswer.ExtractQuestionBestAnswerer`: these state the lines written under the corrected `BestAnswer.BestAnswerer`. As written, the pass never takes the accepted answer and compares the scores as text, so it writes the owners `BestAnswer.BestAnswererAsWritten` gives (see `BestAnswer.AsWrittenFirstGreatestText` and Findings rows 2 and 3).

## Notes on the source

- The right context of `__slide_through` takes at most `W - 1` tokens (`meta_path[pos + 1 : pos + W]`), although the docstring draws `W` tokens on each side. The model follows the code (`Windows.Windows`).
- `data_index` is never reset: once the cursor reaches the last walk, every later call to `generate_batch` fails at the unpack (`Loader.Exhausted`).
- A restart appends `walk[0]`. So an `A`-start walk may return to the same answerer, e.g. `A_20 Q_1 A_20`, and need not reach a different one.
- Only the first entry of a question's answer list is compared with the accepted answer, because of the unconditional `break` (`QA.Preprocessor.SampleTable`, `QA.LaterAcceptedIgnored`). This quirk is modelled as written and is not reported as a defect.

## Findings

| source | as written | input that shows it | evidently intended | confidence | as-written member | corrected member |
|---|---|---|---|---|---|---|
| src/data_loader.py:125-129 | `np.random.choice` returns a 2-D array, whose rows are passed to `__separate_entity` as if they were tokens; `row.split("_")` raises, so `generate_batch` never returns a batch | any call that gathers at least one pair | separate the flattened sample, giving one column per negative token | not executed | `Loader.AsWrittenNeverReturns` | `Loader.BatchSucceeds` |
| src/preprocessing.py:469 | the test reads the key `"AcceptedAnswerID"`, but records store `"AcceptedAnswerId"`, so the accepted answer is never used | a question whose accepted first answer scores `"1"` and whose second answer scores `"2"`: the second answerer is written | use the accepted answer when there is one, and fall back to the best score otherwise | not executed | `BestAnswer.AcceptedAnswerOverruled` | `BestAnswer.AcceptedChosen` |
| src/preprocessing.py:475-477 | scores are the strings of the JSON records, compared as text by `max` | answers scoring `"9"` and `"10"`: `"9"` wins | compare the scores as integers | not executed | `BestAnswer.TextScoresMisrank` | `BestAnswer.FallbackFirstGreatest` |
